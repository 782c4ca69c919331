/** The reservation table keyed by its integer id, and the read queries the
    repository declares over it. Every query is a pure function of the table. */
module Repository {
  import opened Wrappers
  import opened Entity

  /** The table: at most one row per id. */
  type Table = map<int, Reservation>

  /** Every row carries the id it is stored under. */
  ghost predicate Keyed(t: Table) {
    forall k :: k in t ==> t[k].id == Some(k)
  }

  /** Rows that all carry an id, no two the same: no row is listed twice. */
  ghost predicate DistinctIds(rows: seq<Reservation>) {
    && (forall i :: 0 <= i < |rows| ==> rows[i].id.Some?)
    && (forall i, j :: 0 <= i < |rows| && 0 <= j < |rows| && i != j ==> rows[i].id != rows[j].id)
  }

  /** Rows listed with present, strictly increasing ids: the listing order the
      model fixes internally. */
  ghost predicate AscendingIds(rows: seq<Reservation>) {
    && (forall i :: 0 <= i < |rows| ==> rows[i].id.Some?)
    && (forall i, j :: 0 <= i < j < |rows| ==> rows[i].id.value < rows[j].id.value)
  }

  // ---------------------------------------------------------------- lookups by id

  function FindById(t: Table, id: int): Option<Reservation> {
    if id in t then Some(t[id]) else None
  }

  function ExistsById(t: Table, id: int): bool {
    id in t
  }

  /** Find and exists refer to the same single key. */
  lemma FindAndExistsAgree(t: Table, id: int)
    requires Keyed(t)
    ensures ExistsById(t, id) <==> FindById(t, id).Some?
    ensures FindById(t, id).Some? ==> FindById(t, id).value.id == Some(id)
    ensures forall k :: k in t && t[k].id == Some(id) ==> k == id
  {
  }

  // ---------------------------------------------------------------- listing

  predicate IsLeast(m: int, s: set<int>) {
    m in s && forall x :: x in s ==> m <= x
  }

  lemma {:induction false} LeastExists(s: set<int>)
    requires s != {}
    ensures exists m :: IsLeast(m, s)
  {
    if forall x :: x !in s {
      assert false;
    }
    var y :| y in s;
    var rest := s - {y};
    if rest == {} {
      assert s == {y};
      assert IsLeast(y, s);
    } else {
      LeastExists(rest);
      var m :| IsLeast(m, rest);
      var least := if y < m then y else m;
      forall x | x in s ensures least <= x {
        if x != y {
          assert x in rest;
        }
      }
      assert IsLeast(least, s);
    }
  }

  /** The smallest id of a non-empty set of ids. */
  function Least(s: set<int>): (m: int)
    requires s != {}
    ensures IsLeast(m, s)
  {
    LeastExists(s);
    var m :| IsLeast(m, s); m
  }

  /** The ids of a set, each once, in increasing order. */
  function SortedIds(s: set<int>): (ids: seq<int>)
    ensures |ids| == |s|
    ensures forall k :: k in ids <==> k in s
    ensures forall i, j :: 0 <= i < j < |ids| ==> ids[i] < ids[j]
    decreases |s|
  {
    if s == {} then []
    else
      var m := Least(s);
      [m] + SortedIds(s - {m})
  }

  /** The rows stored under `ids`, in the order of `ids`. */
  function RowsOf(t: Table, ids: seq<int>): (rows: seq<Reservation>)
    requires forall i :: 0 <= i < |ids| ==> ids[i] in t
    ensures |rows| == |ids|
    ensures forall i :: 0 <= i < |ids| ==> rows[i] == t[ids[i]]
  {
    if ids == [] then [] else [t[ids[0]]] + RowsOf(t, ids[1..])
  }

  lemma RowsOfListsTable(t: Table, ids: seq<int>)
    requires forall i :: 0 <= i < |ids| ==> ids[i] in t
    requires forall k :: k in t ==> k in ids
    ensures forall r :: r in RowsOf(t, ids) <==> r in t.Values
  {
    var rows := RowsOf(t, ids);
    forall r | r in t.Values ensures r in rows {
      if forall k :: k in t ==> t[k] != r {
        assert false;
      }
      var k :| k in t && t[k] == r;
      var i :| 0 <= i < |ids| && ids[i] == k;
      assert rows[i] == r;
    }
  }

  lemma RowsOfAscending(t: Table, ids: seq<int>)
    requires forall i :: 0 <= i < |ids| ==> ids[i] in t
    requires forall i, j :: 0 <= i < j < |ids| ==> ids[i] < ids[j]
    ensures Keyed(t) ==> AscendingIds(RowsOf(t, ids))
  {
  }

  /** Every row of the table, in increasing id order (the source promises no
      particular order; this is the order the model fixes). */
  function FindAll(t: Table): (rows: seq<Reservation>)
    ensures |rows| == |t|
    ensures forall r :: r in rows <==> r in t.Values
    ensures Keyed(t) ==> DistinctIds(rows)
  {
    var ids := SortedIds(t.Keys);
    RowsOfListsTable(t, ids);
    RowsOfAscending(t, ids);
    var rows := RowsOf(t, ids);
    assert AscendingIds(rows) ==> DistinctIds(rows) by {
      if AscendingIds(rows) {
        forall i, j | 0 <= i < |rows| && 0 <= j < |rows| && i != j ensures rows[i].id != rows[j].id {
          if i < j {
            assert rows[i].id.value < rows[j].id.value;
          } else {
            assert rows[j].id.value < rows[i].id.value;
          }
        }
      }
    }
    rows
  }

  /** The rows satisfying `p`, in their original order. */
  function Filter(rows: seq<Reservation>, p: Reservation -> bool): (out: seq<Reservation>)
    ensures forall r :: r in out <==> r in rows && p(r)
    ensures |out| <= |rows|
  {
    if rows == [] then []
    else if p(rows[0]) then [rows[0]] + Filter(rows[1..], p)
    else Filter(rows[1..], p)
  }

  lemma {:induction false} FilterDistinct(rows: seq<Reservation>, p: Reservation -> bool)
    ensures DistinctIds(rows) ==> DistinctIds(Filter(rows, p))
  {
    if rows != [] && DistinctIds(rows) {
      var tail := rows[1..];
      assert DistinctIds(tail) by {
        forall i, j | 0 <= i < |tail| && 0 <= j < |tail| && i != j ensures tail[i].id != tail[j].id {
          assert tail[i] == rows[i + 1] && tail[j] == rows[j + 1];
        }
      }
      FilterDistinct(tail, p);
      var rest := Filter(tail, p);
      forall r | r in rest ensures rows[0].id != r.id {
        var j :| 0 <= j < |tail| && tail[j] == r;
        assert rows[j + 1] == r;
      }
      if p(rows[0]) {
        var out := [rows[0]] + rest;
        forall i, j | 0 <= i < |out| && 0 <= j < |out| && i != j ensures out[i].id != out[j].id {
          if i == 0 {
            assert out[j] in rest;
          } else if j == 0 {
            assert out[i] in rest;
          } else {
            assert out[i] == rest[i - 1] && out[j] == rest[j - 1];
          }
        }
      }
    }
  }

  /** The rows of `t` satisfying `p`, in increasing id order. */
  function Where(t: Table, p: Reservation -> bool): (rows: seq<Reservation>)
    ensures forall r :: r in rows <==> r in t.Values && p(r)
    ensures Keyed(t) ==> DistinctIds(rows)
  {
    var all := FindAll(t);
    FilterDistinct(all, p);
    Filter(all, p)
  }

  // ---------------------------------------------------------------- derived queries

  /** `findByStatus`: the rows whose status equals `s`. */
  function FindByStatus(t: Table, s: Status): (rows: seq<Reservation>)
    ensures forall r :: r in rows <==> r in t.Values && r.status == Some(s)
    ensures Keyed(t) ==> DistinctIds(rows)
  {
    Where(t, (r: Reservation) => r.status == Some(s))
  }

  /** `findByDate`: the rows whose date equals `d`. */
  function FindByDate(t: Table, d: Date): (rows: seq<Reservation>)
    ensures forall r :: r in rows <==> r in t.Values && r.date == Some(d)
    ensures Keyed(t) ==> DistinctIds(rows)
  {
    Where(t, (r: Reservation) => r.date == Some(d))
  }

  /** `findByDateAndTableNumber`: the rows on date `d` at table `n`. Compared
      with `=`, a null table number equals nothing, so it matches no row. */
  function FindByDateAndTableNumber(t: Table, d: Option<Date>, n: Option<int>): (rows: seq<Reservation>)
    ensures forall r :: r in rows <==> r in t.Values && d.Some? && n.Some? && r.date == d && r.tableNumber == n
    ensures n.None? || d.None? ==> rows == []
    ensures Keyed(t) ==> DistinctIds(rows)
  {
    var rows := Where(t, (r: Reservation) => d.Some? && n.Some? && r.date == d && r.tableNumber == n);
    assert rows != [] ==> rows[0] in rows;
    rows
  }

  /** `findByNameContainingIgnoreCase`: the rows whose name contains
      `fragment` anywhere, both sides upper-cased. */
  function FindByNameContainingIgnoreCase(t: Table, fragment: string): (rows: seq<Reservation>)
    ensures forall r :: r in rows <==> r in t.Values && r.name.Some? && IsSubstring(Upper(fragment), Upper(r.name.value))
    ensures Keyed(t) ==> DistinctIds(rows)
  {
    forall r: Reservation | r.name.Some? {
      ContainsIsSubstring(Upper(r.name.value), Upper(fragment));
    }
    Where(t, (r: Reservation) => NameContains(r, fragment))
  }

  // ---------------------------------------------------------------- case-insensitive substring

  /** ASCII upper-casing of one character. */
  function UpperChar(c: char): char {
    if 'a' <= c <= 'z' then (c as int - 32) as char else c
  }

  function Upper(s: string): string {
    seq(|s|, i requires 0 <= i < |s| => UpperChar(s[i]))
  }

  /** `f` occurs in `s` starting at position `i`. */
  ghost predicate OccursAt(f: string, s: string, i: int) {
    0 <= i <= |s| - |f| && s[i..i + |f|] == f
  }

  /** `f` occurs in `s` at some position. */
  ghost predicate IsSubstring(f: string, s: string) {
    exists i :: OccursAt(f, s, i)
  }

  /** Scans `s` left to right for an occurrence of `f`. */
  function Contains(s: string, f: string): bool
    decreases |s|
  {
    if |s| < |f| then false
    else if s[..|f|] == f then true
    else Contains(s[1..], f)
  }

  lemma {:induction false} ContainsIsSubstring(s: string, f: string)
    ensures Contains(s, f) <==> IsSubstring(f, s)
    decreases |s|
  {
    if |s| < |f| {
    } else if s[..|f|] == f {
      assert OccursAt(f, s, 0);
    } else {
      ContainsIsSubstring(s[1..], f);
      if IsSubstring(f, s) {
        var i :| OccursAt(f, s, i);
        assert i != 0;
        assert s[1..][i - 1..i - 1 + |f|] == s[i..i + |f|];
        assert OccursAt(f, s[1..], i - 1);
      }
      if IsSubstring(f, s[1..]) {
        var i :| OccursAt(f, s[1..], i);
        assert s[i + 1..i + 1 + |f|] == s[1..][i..i + |f|];
        assert OccursAt(f, s, i + 1);
      }
    }
  }

  predicate NameContains(r: Reservation, fragment: string) {
    r.name.Some? && Contains(Upper(r.name.value), Upper(fragment))
  }

  /** The name match is a case-insensitive substring match, not a prefix match. */
  lemma NameContainsExamples()
    ensures Contains(Upper("Anna"), Upper("an"))
    ensures Contains(Upper("Dana"), Upper("an"))
    ensures Contains(Upper("ANNA"), Upper("an"))
    ensures !Contains(Upper("Bob"), Upper("an"))
  {
    assert Upper("an") == "AN";
    assert Upper("Anna") == "ANNA";
    assert Upper("Dana") == "DANA";
    assert Upper("ANNA") == "ANNA";
    assert Upper("Bob") == "BOB";
    assert "ANNA"[..2] == "AN";
    assert "DANA"[1..][..2] == "AN";
    assert "BOB"[..2][0] != "AN"[0];
    assert "BOB"[1..] == "OB";
    assert "OB"[..2][0] != "AN"[0];
    assert "OB"[1..] == "B";
    assert !Contains("B", "AN");
    assert !Contains("OB", "AN");
  }

  /** No write consults the date-and-table query, so nothing stops two
      reservations for the same table on the same date from both being stored. */
  lemma DoubleBookingIsStorable(a: Reservation, b: Reservation, ka: int, kb: int)
    requires ka != kb && a.id == Some(ka) && b.id == Some(kb)
    requires a.date.Some? && a.date == b.date && a.tableNumber.Some? && a.tableNumber == b.tableNumber
    ensures |FindByDateAndTableNumber(map[ka := a, kb := b], a.date, a.tableNumber)| == 2
  {
  }
}
