/** The in-memory host catalog: a dictionary from lowercased hostname to a host record,
    filled from the rows of the `hosts` table, listed in sorted order and looked up by
    position or by name.  The SQL that produces the rows is not modelled; the rows are
    an input. */
module Catalog {

  /** One row of `SELECT hostname, mac, ip, reviewed FROM hosts`. */
  datatype Row = Row(hostname: string, mac: string, ip: string, reviewed: int)

  /** A host record: the dictionary with keys `hostname`, `ip`, `mac` and `reviewed`. */
  datatype HostRecord = HostRecord(hostname: string, ip: seq<string>, mac: seq<string>, reviewed: int)

  /* ---------------------------------------------------------------- lower case */

  /** `str.lower` on one character, for the ASCII letters. */
  function LowerChar(c: char): (r: char)
    ensures 'A' <= c <= 'Z' ==> r as int == c as int + 32
    ensures !('A' <= c <= 'Z') ==> r == c
  {
    if 'A' <= c <= 'Z' then (c as int + 32) as char else c
  }

  /** `str.lower`, character by character. */
  function Lower(s: string): (r: string)
    ensures |r| == |s|
    ensures forall i :: 0 <= i < |s| ==> r[i] == LowerChar(s[i])
  {
    seq(|s|, i requires 0 <= i < |s| => LowerChar(s[i]))
  }

  /** Lowering twice is lowering once. */
  lemma LowerIdempotent(s: string)
    ensures Lower(Lower(s)) == Lower(s)
  {
    assert forall i :: 0 <= i < |s| ==> Lower(Lower(s))[i] == Lower(s)[i];
  }

  /** A string that lowering leaves alone. */
  predicate IsLower(s: string)
  {
    Lower(s) == s
  }

  /** Every key of the map is already in lower case. */
  predicate LowerKeys(m: map<string, HostRecord>)
  {
    forall k :: k in m ==> IsLower(k)
  }

  /* ---------------------------------------------------------------- grouping */

  /** The record a row starts: one-element `ip` and `mac` lists. */
  function Fresh(r: Row): (h: HostRecord)
    ensures h.hostname == r.hostname && h.reviewed == r.reviewed
    ensures h.ip == [r.ip] && h.mac == [r.mac]
  {
    HostRecord(r.hostname, [r.ip], [r.mac], r.reviewed)
  }

  /** One turn of the loop in `fetch_hosts`.  The membership test uses the hostname as
      the row spells it, while the record is stored under its lower-case form: when
      the test succeeds the row's address and hardware address are appended to that
      record, otherwise a new record replaces whatever was stored under the key. */
  function Step(m: map<string, HostRecord>, r: Row): (m': map<string, HostRecord>)
    requires LowerKeys(m)
    ensures LowerKeys(m')
    ensures m'.Keys == m.Keys + {Lower(r.hostname)}
  {
    LowerIdempotent(r.hostname);
    var key := Lower(r.hostname);
    if r.hostname in m then
      // The row's own spelling is a key, so it is already lower case and the lookup
      // by `hostname.lower()` cannot fail.
      assert IsLower(r.hostname);
      m[key := m[key].(ip := m[key].ip + [r.ip], mac := m[key].mac + [r.mac])]
    else
      m[key := Fresh(r)]
  }

  /** What `fetch_hosts` leaves in the catalog after the rows `rows`: it starts from an
      empty dictionary and takes the rows in order. */
  function Group(rows: seq<Row>): (m: map<string, HostRecord>)
    ensures LowerKeys(m)
  {
    if |rows| == 0 then map[] else Step(Group(rows[..|rows| - 1]), rows[|rows| - 1])
  }

  /** A row whose hostname, exactly as spelled, is already a key extends that record:
      its lists grow by the row's addresses and its `hostname` and `reviewed` stay those
      of the row that created it.  No other record changes. */
  lemma StepAppends(m: map<string, HostRecord>, r: Row)
    requires LowerKeys(m) && r.hostname in m
    ensures Lower(r.hostname) == r.hostname
    ensures Step(m, r)[r.hostname] == m[r.hostname].(ip := m[r.hostname].ip + [r.ip], mac := m[r.hostname].mac + [r.mac])
    ensures Step(m, r)[r.hostname].hostname == m[r.hostname].hostname
    ensures Step(m, r)[r.hostname].reviewed == m[r.hostname].reviewed
    ensures forall k :: k in m && k != r.hostname ==> Step(m, r)[k] == m[k]
  {
  }

  /** A row whose hostname, exactly as spelled, is not a key creates or overwrites the
      record under its lower-case form.  No other record changes. */
  lemma StepReplaces(m: map<string, HostRecord>, r: Row)
    requires LowerKeys(m) && r.hostname !in m
    ensures Step(m, r)[Lower(r.hostname)] == Fresh(r)
    ensures forall k :: k in m && k != Lower(r.hostname) ==> Step(m, r)[k] == m[k]
  {
  }

  /** A hostname with a capital letter is never a key, so its row always replaces: rows
      that differ from a stored host only in case do not aggregate with it, and even
      two rows spelled identically with a capital keep only the later one. */
  lemma MixedCaseReplaces(m: map<string, HostRecord>, r: Row)
    requires LowerKeys(m) && !IsLower(r.hostname)
    ensures Step(m, r)[Lower(r.hostname)] == Fresh(r)
  {
  }

  /** Two rows for host `Web` with different addresses: the catalog keeps only the
      second address under `web`, while the same two rows spelled `web` keep both. */
  lemma MixedCaseExample()
    ensures var g := Group([Row("Web", "m1", "10.0.0.1", 0), Row("Web", "m2", "10.0.0.2", 0)]);
      "web" in g && g["web"].ip == ["10.0.0.2"]
    ensures var g := Group([Row("web", "m1", "10.0.0.1", 0), Row("web", "m2", "10.0.0.2", 0)]);
      "web" in g && g["web"].ip == ["10.0.0.1", "10.0.0.2"]
  {
    var r1, r2 := Row("Web", "m1", "10.0.0.1", 0), Row("Web", "m2", "10.0.0.2", 0);
    assert [r1, r2][..1] == [r1];
    assert [r1][..0] == [];
    assert Lower("Web") == "web";
    assert Group([r1]) == map["web" := Fresh(r1)];
    assert "Web" !in Group([r1]);
    var s1, s2 := Row("web", "m1", "10.0.0.1", 0), Row("web", "m2", "10.0.0.2", 0);
    assert [s1, s2][..1] == [s1];
    assert [s1][..0] == [];
    assert Lower("web") == "web";
    assert Group([s1]) == map["web" := Fresh(s1)];
  }

  /** Some row's hostname lowers to `k`. */
  predicate Named(rows: seq<Row>, k: string)
  {
    exists i :: 0 <= i < |rows| && Lower(rows[i].hostname) == k
  }

  /** The keys are exactly the lower-case forms of the rows' hostnames: nothing left
      from before the reload survives, and no row is dropped. */
  lemma {:induction false} GroupKeys(rows: seq<Row>, k: string)
    ensures k in Group(rows) <==> Named(rows, k)
    decreases |rows|
  {
    if |rows| > 0 {
      var init := rows[..|rows| - 1];
      GroupKeys(init, k);
      if Named(init, k) {
        var i :| 0 <= i < |init| && Lower(init[i].hostname) == k;
        assert rows[i] == init[i];
      }
      if Named(rows, k) && k != Lower(rows[|rows| - 1].hostname) {
        var i :| 0 <= i < |rows| && Lower(rows[i].hostname) == k;
        assert init[i] == rows[i];
      }
    }
  }

  /** The row at `i` lowers to `k` and carries the address pair `ip`, `mac`. */
  predicate Carries(rows: seq<Row>, i: int, k: string, ip: string, mac: string)
  {
    0 <= i < |rows| && Lower(rows[i].hostname) == k && rows[i].ip == ip && rows[i].mac == mac
  }

  /** The record `h` filed under `k` agrees with the rows: its `hostname` lowers to
      `k`, its `ip` and `mac` lists are non-empty and of one length, and the entries at
      each position came from one and the same row filed under `k`. */
  predicate RecordFrom(rows: seq<Row>, k: string, h: HostRecord)
  {
    Lower(h.hostname) == k && 0 < |h.ip| == |h.mac| &&
    forall j :: 0 <= j < |h.ip| ==> Paired(rows, k, h, j)
  }

  /** Position `j` of the record's lists holds the address pair of some row filed
      under `k`. */
  predicate Paired(rows: seq<Row>, k: string, h: HostRecord, j: nat)
    requires j < |h.ip| == |h.mac|
  {
    exists i :: 0 <= i < |rows| && Carries(rows, i, k, h.ip[j], h.mac[j])
  }

  /** Every record of `m` agrees with the rows. */
  predicate Aligned(rows: seq<Row>, m: map<string, HostRecord>)
  {
    forall k :: k in m ==> RecordFrom(rows, k, m[k])
  }

  /** A later row does not undo what earlier rows show. */
  lemma RecordFromLater(rows: seq<Row>, r: Row, k: string, h: HostRecord)
    requires RecordFrom(rows, k, h)
    ensures RecordFrom(rows + [r], k, h)
  {
    assert Lower(h.hostname) == k && 0 < |h.ip| == |h.mac|;
    forall j | 0 <= j < |h.ip|
      ensures Paired(rows + [r], k, h, j)
    {
      assert Paired(rows, k, h, j);
      var i :| 0 <= i < |rows| && Carries(rows, i, k, h.ip[j], h.mac[j]);
      assert (rows + [r])[i] == rows[i];
      assert Carries(rows + [r], i, k, h.ip[j], h.mac[j]);
    }
  }

  /** Appending a row's address pair to a record filed under the row's key keeps the
      record in agreement with the rows. */
  lemma RecordFromAppend(rows: seq<Row>, r: Row, k: string, h: HostRecord)
    requires RecordFrom(rows, k, h) && Lower(r.hostname) == k
    ensures RecordFrom(rows + [r], k, h.(ip := h.ip + [r.ip], mac := h.mac + [r.mac]))
  {
    RecordFromLater(rows, r, k, h);
    var h' := h.(ip := h.ip + [r.ip], mac := h.mac + [r.mac]);
    forall j | 0 <= j < |h'.ip|
      ensures Paired(rows + [r], k, h', j)
    {
      if j == |h.ip| {
        assert Carries(rows + [r], |rows|, k, h'.ip[j], h'.mac[j]);
      } else {
        assert h'.ip[j] == h.ip[j] && h'.mac[j] == h.mac[j];
        assert Paired(rows + [r], k, h, j);
        var i :| 0 <= i < |rows + [r]| && Carries(rows + [r], i, k, h.ip[j], h.mac[j]);
        assert Carries(rows + [r], i, k, h'.ip[j], h'.mac[j]);
      }
    }
  }

  /** The `ip` and `mac` lists of every record are extended together, so they stay
      index-aligned. */
  lemma {:induction false} GroupAligned(rows: seq<Row>)
    ensures Aligned(rows, Group(rows))
    decreases |rows|
  {
    if |rows| > 0 {
      var init, r := rows[..|rows| - 1], rows[|rows| - 1];
      assert rows == init + [r];
      GroupAligned(init);
      var m, m' := Group(init), Group(rows);
      var key := Lower(r.hostname);
      forall k | k in m'
        ensures RecordFrom(rows, k, m'[k])
      {
        if k != key {
          RecordFromLater(init, r, k, m[k]);
        } else if r.hostname in m {
          StepAppends(m, r);
          RecordFromAppend(init, r, k, m[k]);
        } else {
          assert m'[k] == Fresh(r);
          assert Carries(rows, |init|, k, m'[k].ip[0], m'[k].mac[0]);
        }
      }
    }
  }

  /** The catalog object: a dictionary of host records keyed by lowercased hostname. */
  class Catalog {
    var entries: map<string, HostRecord>

    /** `Catalog(database)`: opens the table and loads it; `rows` is what the query in
        `fetch_hosts` returns. */
    constructor (rows: seq<Row>)
      ensures entries == Group(rows)
    {
      entries := map[];
      new;
      FetchHosts(rows);
    }

    /** `fetch_hosts`: empty the dictionary, then file each row under its lowercased
        hostname, appending to or replacing the record there. */
    method FetchHosts(rows: seq<Row>)
      modifies this
      ensures entries == Group(rows)
    {
      entries := map[];
      for i := 0 to |rows|
        invariant entries == Group(rows[..i])
      {
        var r := rows[i];
        assert rows[..i + 1][..i] == rows[..i];
        LowerIdempotent(r.hostname);
        var key := Lower(r.hostname);
        if r.hostname in entries {
          entries := entries[key := entries[key].(ip := entries[key].ip + [r.ip])];
          entries := entries[key := entries[key].(mac := entries[key].mac + [r.mac])];
        } else {
          entries := entries[key := HostRecord(r.hostname, [r.ip], [r.mac], r.reviewed)];
        }
      }
      assert rows[..|rows|] == rows;
    }
  }

  /* ---------------------------------------------------------------- sorted hosts */

  /** Python's `<` on strings: code point by code point, a proper prefix first. */
  predicate Before(a: string, b: string)
    ensures |a| < |b| && a == b[..|a|] ==> Before(a, b)
    decreases |a|
  {
    |b| > 0 && (|a| == 0 || a[0] < b[0] || (a[0] == b[0] && Before(a[1..], b[1..])))
  }

  lemma {:induction false} BeforeIrreflexive(a: string)
    ensures !Before(a, a)
    decreases |a|
  {
    if |a| > 0 {
      BeforeIrreflexive(a[1..]);
    }
  }

  lemma {:induction false} BeforeAsymmetric(a: string, b: string)
    ensures !(Before(a, b) && Before(b, a))
    decreases |a|
  {
    if |a| > 0 && |b| > 0 && a[0] == b[0] {
      BeforeAsymmetric(a[1..], b[1..]);
    }
  }

  lemma {:induction false} BeforeTransitive(a: string, b: string, c: string)
    requires Before(a, b) && Before(b, c)
    ensures Before(a, c)
    decreases |a|
  {
    if |a| > 0 && a[0] == b[0] && b[0] == c[0] {
      BeforeTransitive(a[1..], b[1..], c[1..]);
    }
  }

  lemma {:induction false} BeforeTotal(a: string, b: string)
    requires a != b
    ensures Before(a, b) || Before(b, a)
    decreases |a|
  {
    if |a| > 0 && |b| > 0 && a[0] == b[0] {
      assert a == [a[0]] + a[1..] && b == [b[0]] + b[1..];
      BeforeTotal(a[1..], b[1..]);
    }
  }

  /** The least key of a non-empty set of strings. */
  ghost function Least(keys: set<string>): (k: string)
    requires keys != {}
    ensures k in keys
    decreases keys
  {
    var x :| x in keys;
    if keys == {x} then x
    else
      var y := Least(keys - {x});
      if Before(x, y) then x else y
  }

  /** `Least` comes before every other key. */
  lemma {:induction false} LeastIsLeast(keys: set<string>)
    requires keys != {}
    ensures forall j :: j in keys && j != Least(keys) ==> Before(Least(keys), j)
    decreases keys
  {
    var x :| x in keys && Least(keys) == (
      if keys == {x} then x
      else if Before(x, Least(keys - {x})) then x else Least(keys - {x}));
    if keys != {x} {
      var rest := keys - {x};
      var y := Least(rest);
      LeastIsLeast(rest);
      BeforeTotal(x, y);
      forall j | j in keys && j != Least(keys)
        ensures Before(Least(keys), j)
      {
        if Before(x, y) {
          if j != y {
            BeforeTransitive(x, y, j);
          }
        }
      }
    }
  }

  /** Strictly increasing in Python's string order, hence also free of duplicates. */
  predicate Ascending(s: seq<string>)
  {
    forall i, j :: 0 <= i < j < |s| ==> Before(s[i], s[j])
  }

  /** `sorted` on a set of strings. */
  ghost function SortedKeys(keys: set<string>): (r: seq<string>)
    ensures |r| == |keys|
    ensures forall i :: 0 <= i < |r| ==> r[i] in keys
    ensures forall k :: k in keys ==> k in r
    ensures Ascending(r)
    decreases keys
  {
    if keys == {} then []
    else
      var k := Least(keys);
      LeastIsLeast(keys);
      [k] + SortedKeys(keys - {k})
  }

  /** The `hosts` property: the catalog's keys in ascending order. */
  ghost function Hosts(m: map<string, HostRecord>): (r: seq<string>)
    ensures |r| == |m|
    ensures forall i :: 0 <= i < |r| ==> r[i] in m
    ensures forall k :: k in m ==> k in r
    ensures Ascending(r)
  {
    SortedKeys(m.Keys)
  }

  /** There is only one ascending listing of a set of keys, so `Hosts` is it. */
  lemma {:induction false} AscendingUnique(a: seq<string>, b: seq<string>)
    requires Ascending(a) && Ascending(b)
    requires forall k :: k in a <==> k in b
    ensures a == b
    decreases |a|
  {
    if |a| > 0 {
      assert a[0] in a;
    }
    if |b| > 0 {
      assert b[0] in b;
    }
    if |a| > 0 && |b| > 0 {
      if a[0] != b[0] {
        assert b[0] in a && a[0] in b;
        BeforeAsymmetric(a[0], b[0]);
        BeforeIrreflexive(a[0]);
        BeforeIrreflexive(b[0]);
        assert false;
      }
      forall k ensures k in a[1..] <==> k in b[1..] {
        BeforeIrreflexive(k);
        if k in a[1..] {
          var i :| 1 <= i < |a| && a[i] == k;
          assert Before(a[0], a[i]);
          assert k in a && k in b;
          var j :| 0 <= j < |b| && b[j] == k;
          assert b[1..][j - 1] == k;
        }
        if k in b[1..] {
          var j :| 1 <= j < |b| && b[j] == k;
          assert Before(b[0], b[j]);
          assert k in b && k in a;
          var i :| 0 <= i < |a| && a[i] == k;
          assert a[1..][i - 1] == k;
        }
      }
      AscendingUnique(a[1..], b[1..]);
      assert a == [a[0]] + a[1..] && b == [b[0]] + b[1..];
    }
  }

  /** The host at position `n` of `hosts` is the one exactly `n` keys precede: the keys
      before it in Python's order are the first `n` entries. */
  lemma HostsRank(m: map<string, HostRecord>, n: nat, k: string)
    requires n < |Hosts(m)| && k in m
    ensures Before(k, Hosts(m)[n]) <==> k in Hosts(m)[..n]
  {
    var hs := Hosts(m);
    var i :| 0 <= i < |hs| && hs[i] == k;
    BeforeIrreflexive(k);
    if i < n {
      assert hs[..n][i] == k;
    } else if i > n {
      BeforeAsymmetric(k, hs[n]);
    }
  }

  /** Every key is lower case, so the code-point order `sorted` uses is also the
      case-insensitive order: lowering the listed keys changes nothing. */
  lemma HostsOfGroupCaseInsensitive(rows: seq<Row>)
    ensures forall i :: 0 <= i < |Hosts(Group(rows))| ==> Lower(Hosts(Group(rows))[i]) == Hosts(Group(rows))[i]
  {
  }

  /* ---------------------------------------------------------------- lookup */

  /** A subscript of the catalog: an integer position or a hostname. */
  datatype Key = Position(n: int) | Name(s: string)

  /** The outcome of `catalog[key]`: the record, or the exception Python raises. */
  datatype Lookup = Found(host: HostRecord) | IndexError | KeyError

  /** `catalog[key]`.  An integer picks the host at that position of `hosts`, counting
      from the end when negative, and then looks that hostname up; a string is looked
      up directly. */
  ghost function Get(m: map<string, HostRecord>, key: Key): (r: Lookup)
    ensures key.Name? ==> (r.KeyError? <==> key.s !in m) && !r.IndexError?
    ensures key.Name? && key.s in m ==> r == Found(m[key.s])
    ensures key.Position? ==> (r.IndexError? <==> !(-|m| <= key.n < |m|)) && !r.KeyError?
    ensures key.Position? && 0 <= key.n < |m| ==> r == Found(m[Hosts(m)[key.n]])
    decreases key.Position?
  {
    match key
    case Name(s) => if s in m then Found(m[s]) else KeyError
    case Position(n) =>
      var hs := Hosts(m);
      if -|hs| <= n < |hs| then
        var host := hs[if n < 0 then n + |hs| else n];
        Get(m, Name(host))
      else IndexError
  }

  /** A negative position counts from the end of `hosts`. */
  lemma GetNegative(m: map<string, HostRecord>, n: int)
    requires -|m| <= n < 0
    ensures Get(m, Position(n)) == Get(m, Position(n + |m|))
  {
  }

  /** Looking a position up is looking up the hostname listed there. */
  lemma GetPositionIsName(m: map<string, HostRecord>, n: nat)
    requires n < |m|
    ensures Hosts(m)[n] in m
    ensures Get(m, Position(n)) == Get(m, Name(Hosts(m)[n]))
  {
  }

  /** After a reload, a name finds a record exactly when some row's hostname lowers to
      it, and that record carries the name, in some spelling, and at least one
      address. */
  lemma GetAfterFetch(rows: seq<Row>, s: string)
    ensures Get(Group(rows), Name(s)).Found? <==> Named(rows, s)
    ensures Get(Group(rows), Name(s)).Found? ==>
      Lower(Get(Group(rows), Name(s)).host.hostname) == s && |Get(Group(rows), Name(s)).host.ip| > 0
  {
    GroupKeys(rows, s);
    GroupAligned(rows);
  }

  /* ---------------------------------------------------------------- add_host */

  /** A Python value passed as `reviewed`. */
  datatype Value = NoneValue | Bool(b: bool) | Int(i: int) | Str(s: string)

  /** Python truthiness of those values: all but `None`, `False`, `0` and `""`. */
  predicate Truthy(v: Value)
    ensures Truthy(v) <==> v != NoneValue && v != Bool(false) && v != Int(0) && v != Str("")
  {
    match v
    case NoneValue => false
    case Bool(b) => b
    case Int(i) => i != 0
    case Str(s) => s != ""
  }

  /** `reviewed = 1 if reviewed else 0` in `add_host`: the flag stored in the table. */
  function StoredReviewed(v: Value): (r: int)
    ensures r == 0 || r == 1
    ensures r == 1 <==> Truthy(v)
  {
    if Truthy(v) then 1 else 0
  }

  /** Storing a stored flag again changes nothing, and the default `False` stores 0. */
  lemma StoredReviewedStable(v: Value)
    ensures StoredReviewed(Int(StoredReviewed(v))) == StoredReviewed(v)
    ensures StoredReviewed(Bool(false)) == 0
  {
  }
}
