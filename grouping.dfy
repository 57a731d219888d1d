/**
 * The grouping step of the roster parser (src/App.tsx:213-224): rows are
 * grouped by nationality key in first-appearance order, each group is
 * sorted by start time with a stable sort, and the groups are flattened.
 */
module Grouping {
  import opened Text
  import opened AppHelpers

  // ------------------------------------------------------------ sort by start

  /** The comparator's key, `a.start?.getTime() || 0`. A missing start is
      epoch 0 there, which is before every instant of a roster day dated
      after 1970; in minutes after that day's midnight it is -1, below every
      parsed start (those are never negative). Days before 1970 are not
      modelled: there every start is a negative instant and a missing start
      sorts after them. */
  function StartKey(r: Row): int {
    match r.start
    case None => -1
    case Some(t) => t
  }

  predicate SortedByStart(s: seq<Row>) {
    forall i, j :: 0 <= i < j < |s| ==> StartKey(s[i]) <= StartKey(s[j])
  }

  /** The rows whose sort key is `v`, in order. */
  function WithStartKey(s: seq<Row>, v: int): (r: seq<Row>)
    ensures |r| <= |s|
  {
    if s == [] then []
    else WithStartKey(s[..|s| - 1], v) + (if StartKey(s[|s| - 1]) == v then [s[|s| - 1]] else [])
  }

  /** `x` placed after every row whose key is not above its own. */
  function InsertByStart(s: seq<Row>, x: Row): (r: seq<Row>)
    ensures |r| == |s| + 1
    ensures multiset(r) == multiset(s) + multiset{x}
    decreases |s|
  {
    if s == [] then [x]
    else if StartKey(s[|s| - 1]) <= StartKey(x) then s + [x]
    else
      var r := InsertByStart(s[..|s| - 1], x) + [s[|s| - 1]];
      assert s == s[..|s| - 1] + [s[|s| - 1]];
      r
  }

  /** `Array.prototype.sort` with the start-time comparator: a stable sort
      (insertion sort), whose result is the only sorted arrangement that keeps
      the order of rows with equal keys. */
  function SortByStart(s: seq<Row>): (r: seq<Row>)
    ensures |r| == |s|
    ensures multiset(r) == multiset(s)
    decreases |s|
  {
    if s == [] then []
    else
      assert s == s[..|s| - 1] + [s[|s| - 1]];
      InsertByStart(SortByStart(s[..|s| - 1]), s[|s| - 1])
  }

  lemma {:induction false} InsertSorted(s: seq<Row>, x: Row)
    requires SortedByStart(s)
    ensures SortedByStart(InsertByStart(s, x))
    decreases |s|
  {
    if s != [] && StartKey(s[|s| - 1]) > StartKey(x) {
      var init := s[..|s| - 1];
      InsertSorted(init, x);
      var r := InsertByStart(init, x);
      var last := s[|s| - 1];
      forall i | 0 <= i < |r| ensures StartKey(r[i]) <= StartKey(last) {
        assert r[i] in multiset(r);
        assert r[i] in multiset(init) + multiset{x};
        if r[i] != x {
          assert r[i] in init;
        }
      }
    }
  }

  /** The sort orders the rows by start. */
  lemma {:induction false} SortByStartSorted(s: seq<Row>)
    ensures SortedByStart(SortByStart(s))
    decreases |s|
  {
    if s != [] {
      SortByStartSorted(s[..|s| - 1]);
      InsertSorted(SortByStart(s[..|s| - 1]), s[|s| - 1]);
    }
  }

  lemma {:induction false} WithStartKeyAppend(a: seq<Row>, b: seq<Row>, v: int)
    ensures WithStartKey(a + b, v) == WithStartKey(a, v) + WithStartKey(b, v)
    decreases |b|
  {
    if b == [] {
      assert a + b == a;
    } else {
      assert (a + b)[..|a + b| - 1] == a + b[..|b| - 1];
      WithStartKeyAppend(a, b[..|b| - 1], v);
    }
  }

  lemma {:induction false} WithStartKeyNone(s: seq<Row>, v: int)
    requires forall i :: 0 <= i < |s| ==> StartKey(s[i]) != v
    ensures WithStartKey(s, v) == []
    decreases |s|
  {
    if s != [] {
      WithStartKeyNone(s[..|s| - 1], v);
    }
  }

  /** Inserting keeps the relative order of every key class, `x` going last
      among its own. */
  lemma {:induction false} InsertStable(s: seq<Row>, x: Row, v: int)
    ensures WithStartKey(InsertByStart(s, x), v) == WithStartKey(s, v) + (if StartKey(x) == v then [x] else [])
    decreases |s|
  {
    if s == [] {
      assert InsertByStart(s, x) == [] + [x];
    } else if StartKey(s[|s| - 1]) <= StartKey(x) {
      WithStartKeySnoc(s, x, v);
    } else {
      InsertStable(s[..|s| - 1], x, v);
      InsertStableLater(s, x, v);
    }
  }

  lemma InsertStableLater(s: seq<Row>, x: Row, v: int)
    requires s != [] && StartKey(s[|s| - 1]) > StartKey(x)
    requires WithStartKey(InsertByStart(s[..|s| - 1], x), v)
             == WithStartKey(s[..|s| - 1], v) + (if StartKey(x) == v then [x] else [])
    ensures WithStartKey(InsertByStart(s, x), v) == WithStartKey(s, v) + (if StartKey(x) == v then [x] else [])
  {
    var init := s[..|s| - 1];
    var last := s[|s| - 1];
    assert InsertByStart(s, x) == InsertByStart(init, x) + [last];
    StableLater(InsertByStart(init, x), init, last, x, v);
    assert s == init + [last];
  }

  /** A row with a larger key than `x` placed after it does not disturb the
      rows of key `v`. */
  lemma StableLater(r: seq<Row>, init: seq<Row>, last: Row, x: Row, v: int)
    requires StartKey(last) > StartKey(x)
    requires WithStartKey(r, v) == WithStartKey(init, v) + (if StartKey(x) == v then [x] else [])
    ensures WithStartKey(r + [last], v) == WithStartKey(init + [last], v) + (if StartKey(x) == v then [x] else [])
  {
    WithStartKeySnoc(r, last, v);
    WithStartKeySnoc(init, last, v);
  }

  lemma WithStartKeySnoc(s: seq<Row>, y: Row, v: int)
    ensures WithStartKey(s + [y], v) == WithStartKey(s, v) + (if StartKey(y) == v then [y] else [])
  {
    assert (s + [y])[..|s|] == s;
  }

  /** Stability: for every key, the rows with that key come out in the order
      they went in. */
  lemma {:induction false} SortByStartStable(s: seq<Row>, v: int)
    ensures WithStartKey(SortByStart(s), v) == WithStartKey(s, v)
    decreases |s|
  {
    if s != [] {
      var init := s[..|s| - 1];
      SortByStartStable(init, v);
      InsertStable(SortByStart(init), s[|s| - 1], v);
    }
  }

  // ------------------------------------------------------------ grouping

  /** The group key `r.natKey || 'others'`. */
  function KeyOf(r: Row): (k: string)
    ensures k != []
  {
    if r.natKey == [] then "others" else r.natKey
  }

  /** The group keys, each once, in the order of their first row. */
  function FirstKeys(rows: seq<Row>): (ks: seq<string>)
    ensures NoDup(ks)
    ensures forall k :: k in ks <==> exists i :: 0 <= i < |rows| && KeyOf(rows[i]) == k
    decreases |rows|
  {
    if rows == [] then []
    else
      var init := rows[..|rows| - 1];
      var ks := FirstKeys(init);
      var k := KeyOf(rows[|rows| - 1]);
      assert forall i :: 0 <= i < |init| ==> init[i] == rows[i];
      if k in ks then ks else ks + [k]
  }

  /** The rows with group key `k`, in order. */
  function WithKey(rows: seq<Row>, k: string): (r: seq<Row>)
    ensures |r| <= |rows|
    ensures forall x :: x in r <==> x in rows && KeyOf(x) == k
    decreases |rows|
  {
    if rows == [] then []
    else
      var init := rows[..|rows| - 1];
      var last := rows[|rows| - 1];
      assert rows == init + [last];
      WithKey(init, k) + (if KeyOf(last) == k then [last] else [])
  }

  /** One rendered group: its key, the flag stored under that key, its rows. */
  datatype Group = Group(key: string, flag: string, rows: seq<Row>)

  /** The group of key `k`: its flag and its rows sorted by start. */
  function GroupOf(rows: seq<Row>, k: string): Group {
    Group(k, FlagFor(k), SortByStart(WithKey(rows, k)))
  }

  /** The groups for the keys `ks`, in that order. */
  function GroupsFor(rows: seq<Row>, ks: seq<string>): (gs: seq<Group>)
    ensures |gs| == |ks|
    ensures forall i :: 0 <= i < |ks| ==> gs[i] == GroupOf(rows, ks[i])
  {
    if ks == [] then [] else [GroupOf(rows, ks[0])] + GroupsFor(rows, ks[1..])
  }

  /** The grouping of src/App.tsx: one group per key in first-appearance
      order, its rows sorted by start. */
  function GroupsOf(rows: seq<Row>): seq<Group> {
    GroupsFor(rows, FirstKeys(rows))
  }

  /** `.filter(g => g.rows.length)`. */
  function NonEmpty(gs: seq<Group>): (r: seq<Group>)
    ensures forall g :: g in r <==> g in gs && g.rows != []
  {
    if gs == [] then []
    else (if gs[0].rows != [] then [gs[0]] else []) + NonEmpty(gs[1..])
  }

  /** `.flatMap(g => g.rows)`. */
  function Flatten(gs: seq<Group>): (r: seq<Row>)
    ensures gs == [] ==> r == []
  {
    if gs == [] then [] else gs[0].rows + Flatten(gs[1..])
  }

  lemma {:induction false} NonEmptyOfFull(gs: seq<Group>)
    requires forall i :: 0 <= i < |gs| ==> gs[i].rows != []
    ensures NonEmpty(gs) == gs
  {
    if gs != [] {
      NonEmptyOfFull(gs[1..]);
    }
  }

  /** Every group holds at least one row, so the filter on empty groups
      leaves the grouping as it is. */
  lemma GroupsOfNonEmpty(rows: seq<Row>)
    ensures NonEmpty(GroupsOf(rows)) == GroupsOf(rows)
  {
    var ks := FirstKeys(rows);
    var gs := GroupsOf(rows);
    forall i | 0 <= i < |gs| ensures gs[i].rows != [] {
      assert ks[i] in ks;
      var q :| 0 <= q < |rows| && KeyOf(rows[q]) == ks[i];
      assert rows[q] in WithKey(rows, ks[i]);
      assert rows[q] in multiset(SortByStart(WithKey(rows, ks[i])));
    }
    NonEmptyOfFull(gs);
  }

  /** A row is in a group exactly when it is one of the rows and carries
      that group's key. */
  lemma GroupsOfMember(rows: seq<Row>, i: nat, x: Row)
    requires i < |GroupsOf(rows)|
    ensures x in GroupsOf(rows)[i].rows <==> x in rows && KeyOf(x) == GroupsOf(rows)[i].key
  {
    var ks := FirstKeys(rows);
    assert GroupsOf(rows)[i].rows == SortByStart(WithKey(rows, ks[i]));
    assert x in GroupsOf(rows)[i].rows <==> x in multiset(WithKey(rows, ks[i]));
  }

  /** The group keys are distinct and every row's key has a group, so with
      GroupsOfMember each row lands in exactly one group. */
  lemma GroupsOfKeys(rows: seq<Row>)
    ensures var gs := GroupsOf(rows);
            (forall i, j :: 0 <= i < j < |gs| ==> gs[i].key != gs[j].key)
            && (forall q :: 0 <= q < |rows| ==> exists i :: 0 <= i < |gs| && gs[i].key == KeyOf(rows[q]))
  {
    var ks := FirstKeys(rows);
    var gs := GroupsOf(rows);
    assert forall i :: 0 <= i < |gs| ==> gs[i].key == ks[i];
    forall q | 0 <= q < |rows| ensures exists i :: 0 <= i < |gs| && gs[i].key == KeyOf(rows[q]) {
      assert KeyOf(rows[q]) in ks;
      var i :| 0 <= i < |ks| && ks[i] == KeyOf(rows[q]);
      assert gs[i].key == KeyOf(rows[q]);
    }
  }

  /** Each group is sorted by start and keeps, among rows with equal start,
      the order the rows had in the table; its flag is the one stored under
      its key. */
  lemma GroupsOfSortedStable(rows: seq<Row>, i: nat, v: int)
    requires i < |GroupsOf(rows)|
    ensures var g := GroupsOf(rows)[i];
            SortedByStart(g.rows)
            && WithStartKey(g.rows, v) == WithStartKey(WithKey(rows, g.key), v)
            && g.flag == FlagFor(g.key)
  {
    var g := GroupsOf(rows)[i];
    SortByStartSorted(WithKey(rows, g.key));
    SortByStartStable(WithKey(rows, g.key), v);
  }

  /** The groups' keys come in the order of their first rows: every row of a
      later group comes after some row of each earlier group. */
  lemma {:induction false} FirstKeysOrder(rows: seq<Row>, a: nat, b: nat, q: nat)
    requires a < b < |FirstKeys(rows)| && q < |rows| && KeyOf(rows[q]) == FirstKeys(rows)[b]
    ensures exists p :: 0 <= p < q && KeyOf(rows[p]) == FirstKeys(rows)[a]
    decreases |rows|
  {
    var n := |rows| - 1;
    var init := rows[..n];
    assert rows == init + [rows[n]];
    FirstKeysSnoc(init, rows[n]);
    var ks := FirstKeys(init);
    if b < |ks| {
      var q' := q;
      if q == n {
        assert ks[b] in ks;
        q' :| 0 <= q' < |init| && KeyOf(init[q']) == ks[b];
      } else {
        assert init[q] == rows[q];
      }
      FirstKeysOrder(init, a, b, q');
      var p :| 0 <= p < q' && KeyOf(init[p]) == ks[a];
      assert rows[p] == init[p];
    } else {
      FirstKeysOrderNew(rows, a, q);
    }
  }

  /** The last row brings a new key: every earlier key has a row before it. */
  lemma FirstKeysOrderNew(rows: seq<Row>, a: nat, q: nat)
    requires q < |rows| && KeyOf(rows[q]) == KeyOf(rows[|rows| - 1])
    requires KeyOf(rows[|rows| - 1]) !in FirstKeys(rows[..|rows| - 1])
    requires a < |FirstKeys(rows[..|rows| - 1])|
    ensures exists p :: 0 <= p < q && KeyOf(rows[p]) == FirstKeys(rows[..|rows| - 1])[a]
  {
    var init := rows[..|rows| - 1];
    var ks := FirstKeys(init);
    if q < |init| {
      assert false;
    }
    assert ks[a] in ks;
    var p :| 0 <= p < |init| && KeyOf(init[p]) == ks[a];
    assert rows[p] == init[p];
  }

  lemma {:induction false} WithKeySnoc(rows: seq<Row>, x: Row, k: string)
    ensures WithKey(rows + [x], k) == WithKey(rows, k) + (if KeyOf(x) == k then [x] else [])
  {
    assert (rows + [x])[..|rows|] == rows;
  }

  lemma {:induction false} WithKeyAbsent(rows: seq<Row>, k: string)
    requires k !in FirstKeys(rows)
    ensures WithKey(rows, k) == []
    decreases |rows|
  {
    if rows != [] {
      var init := rows[..|rows| - 1];
      assert forall q :: 0 <= q < |init| ==> KeyOf(init[q]) in FirstKeys(rows) by {
        forall q | 0 <= q < |init| ensures KeyOf(init[q]) in FirstKeys(rows) {
          assert init[q] == rows[q];
        }
      }
      WithKeyAbsent(init, k);
      assert KeyOf(rows[|rows| - 1]) in FirstKeys(rows);
    }
  }

  lemma {:induction false} FlattenEmptyGroups(ks: seq<string>)
    ensures multiset(Flatten(GroupsFor([], ks))) == multiset{}
    decreases |ks|
  {
    if ks != [] {
      assert GroupsFor([], ks)[1..] == GroupsFor([], ks[1..]);
      FlattenEmptyGroups(ks[1..]);
    }
  }

  lemma Regroup(a: multiset<Row>, b: multiset<Row>, c: multiset<Row>, d: multiset<Row>)
    ensures (a + b) + (c + d) == (a + c) + (b + d)
  {
  }

  lemma FlattenCons(rows: seq<Row>, ks: seq<string>)
    requires ks != []
    ensures multiset(Flatten(GroupsFor(rows, ks)))
            == multiset(GroupOf(rows, ks[0]).rows) + multiset(Flatten(GroupsFor(rows, ks[1..])))
  {
    assert GroupsFor(rows, ks) == [GroupOf(rows, ks[0])] + GroupsFor(rows, ks[1..]);
  }

  lemma GroupOfSnoc(rows: seq<Row>, x: Row, k: string)
    ensures multiset(GroupOf(rows + [x], k).rows)
            == multiset(GroupOf(rows, k).rows) + (if KeyOf(x) == k then multiset{x} else multiset{})
  {
    WithKeySnoc(rows, x, k);
  }

  /** Adding a row adds it to the flattened groups once when its key is
      among the (distinct) keys, and not at all otherwise. */
  lemma {:induction false} FlattenSnoc(rows: seq<Row>, x: Row, ks: seq<string>)
    requires NoDup(ks)
    ensures multiset(Flatten(GroupsFor(rows + [x], ks)))
            == multiset(Flatten(GroupsFor(rows, ks))) + (if KeyOf(x) in ks then multiset{x} else multiset{})
    decreases |ks|
  {
    if ks != [] {
      assert NoDup(ks[1..]);
      FlattenSnoc(rows, x, ks[1..]);
      FlattenCons(rows + [x], ks);
      FlattenCons(rows, ks);
      GroupOfSnoc(rows, x, ks[0]);
      var here: multiset<Row> := if KeyOf(x) == ks[0] then multiset{x} else multiset{};
      var later: multiset<Row> := if KeyOf(x) in ks[1..] then multiset{x} else multiset{};
      assert here + later == if KeyOf(x) in ks then multiset{x} else multiset{} by {
        assert KeyOf(x) in ks <==> KeyOf(x) == ks[0] || KeyOf(x) in ks[1..];
        assert KeyOf(x) == ks[0] ==> KeyOf(x) !in ks[1..];
      }
      Regroup(multiset(GroupOf(rows, ks[0]).rows), here, multiset(Flatten(GroupsFor(rows, ks[1..]))), later);
    }
  }

  lemma {:induction false} FlattenGroupsFor(rows: seq<Row>, ks: seq<string>)
    requires NoDup(ks)
    requires forall q :: 0 <= q < |rows| ==> KeyOf(rows[q]) in ks
    ensures multiset(Flatten(GroupsFor(rows, ks))) == multiset(rows)
    decreases |rows|
  {
    if rows == [] {
      FlattenEmptyGroups(ks);
    } else {
      var init := rows[..|rows| - 1];
      var x := rows[|rows| - 1];
      assert rows == init + [x];
      FlattenGroupsFor(init, ks);
      FlattenSnoc(init, x, ks);
    }
  }

  /** The flattened groups are a rearrangement of the rows: nothing is lost
      and nothing is repeated. */
  lemma FlattenGroupsOfPermutes(rows: seq<Row>)
    ensures multiset(Flatten(GroupsOf(rows))) == multiset(rows)
    ensures |Flatten(GroupsOf(rows))| == |rows|
  {
    var ks := FirstKeys(rows);
    forall q | 0 <= q < |rows| ensures KeyOf(rows[q]) in ks {
    }
    FlattenGroupsFor(rows, ks);
    assert |multiset(Flatten(GroupsOf(rows)))| == |multiset(rows)|;
  }

  // ------------------------------------------------------------ the loop

  /** The record and key list after a pass over `rows`. */
  ghost predicate Collected(rows: seq<Row>, grouped: map<string, seq<Row>>, order: seq<string>) {
    && order == FirstKeys(rows)
    && (forall k :: k in grouped <==> k in order)
    && (forall k :: k in grouped ==> grouped[k] == WithKey(rows, k))
  }

  lemma CollectStep(rows: seq<Row>, x: Row, grouped: map<string, seq<Row>>, order: seq<string>)
    requires Collected(rows, grouped, order)
    ensures var k := KeyOf(x);
            var g := if k in grouped then grouped else grouped[k := []];
            var o := if k in grouped then order else order + [k];
            Collected(rows + [x], g[k := g[k] + [x]], o)
  {
    var k := KeyOf(x);
    var g := if k in grouped then grouped else grouped[k := []];
    FirstKeysSnoc(rows, x);
    if k !in grouped {
      WithKeyAbsent(rows, k);
    }
    GroupedSnoc(rows, x, g);
  }

  lemma FirstKeysSnoc(rows: seq<Row>, x: Row)
    ensures FirstKeys(rows + [x])
            == if KeyOf(x) in FirstKeys(rows) then FirstKeys(rows) else FirstKeys(rows) + [KeyOf(x)]
  {
    assert (rows + [x])[..|rows|] == rows;
  }

  lemma GroupedSnoc(rows: seq<Row>, x: Row, g: map<string, seq<Row>>)
    requires KeyOf(x) in g
    requires forall k :: k in g ==> g[k] == WithKey(rows, k)
    ensures var g' := g[KeyOf(x) := g[KeyOf(x)] + [x]];
            forall k :: k in g' ==> g'[k] == WithKey(rows + [x], k)
  {
    var g' := g[KeyOf(x) := g[KeyOf(x)] + [x]];
    forall k | k in g' ensures g'[k] == WithKey(rows + [x], k) {
      WithKeySnoc(rows, x, k);
    }
  }

  lemma CollectNext(rows: seq<Row>, i: nat, grouped: map<string, seq<Row>>, order: seq<string>)
    requires i < |rows| && Collected(rows[..i], grouped, order)
    ensures var k := KeyOf(rows[i]);
            var g := if k in grouped then grouped else grouped[k := []];
            var o := if k in grouped then order else order + [k];
            Collected(rows[..i + 1], g[k := g[k] + [rows[i]]], o)
  {
    assert rows[..i + 1] == rows[..i] + [rows[i]];
    CollectStep(rows[..i], rows[i], grouped, order);
  }

  /** The grouping code of src/App.tsx: a record from key to rows filled in
      one pass with the keys listed in first-appearance order, then each
      record entry sorted in place, then the groups built in key order,
      filtered to the non-empty ones and flattened. The sort pass walks the
      key list, which holds exactly the record's keys. */
  method GroupRows(rows: seq<Row>) returns (groups: seq<Group>, flat: seq<Row>)
    ensures groups == GroupsOf(rows)
    ensures flat == Flatten(groups)
  {
    var grouped, order := CollectRows(rows);
    assert SortedUpTo(rows, order, grouped, 0) by {
      assert forall m :: 0 <= m < |order| ==> order[m] in order;
    }
    grouped := SortGroups(rows, grouped, order);
    groups := seq(|order|, m requires 0 <= m < |order| => Group(order[m], FlagFor(order[m]), grouped[order[m]]));
    GroupsAre(rows, groups);
    GroupsOfNonEmpty(rows);
    groups := NonEmpty(groups);
    flat := Flatten(groups);
  }

  /** The first pass: each row appended to its key's entry, a key listed
      when it is first met. */
  method CollectRows(rows: seq<Row>) returns (grouped: map<string, seq<Row>>, order: seq<string>)
    ensures Collected(rows, grouped, order)
  {
    grouped := map[];
    order := [];
    for i := 0 to |rows|
      invariant Collected(rows[..i], grouped, order)
    {
      CollectNext(rows, i, grouped, order);
      var k := KeyOf(rows[i]);
      if k !in grouped {
        grouped := grouped[k := []];
        order := order + [k];
      }
      grouped := grouped[k := grouped[k] + [rows[i]]];
    }
    assert rows[..|rows|] == rows;
  }

  /** The sort pass over the key list. */
  method SortGroups(rows: seq<Row>, grouped: map<string, seq<Row>>, order: seq<string>)
    returns (sorted: map<string, seq<Row>>)
    requires NoDup(order)
    requires SortedUpTo(rows, order, grouped, 0)
    ensures forall k :: k in sorted <==> k in order
    ensures forall m :: 0 <= m < |order| ==> sorted[order[m]] == SortByStart(WithKey(rows, order[m]))
  {
    sorted := grouped;
    for j := 0 to |order|
      invariant SortedUpTo(rows, order, sorted, j)
    {
      SortStep(rows, order, sorted, j);
      sorted := sorted[order[j] := SortByStart(sorted[order[j]])];
    }
  }

  /** The record during the sort pass: the entries of the first `j` keys
      sorted, the others as collected. */
  ghost predicate SortedUpTo(rows: seq<Row>, order: seq<string>, sorted: map<string, seq<Row>>, j: nat) {
    && (forall k :: k in sorted <==> k in order)
    && (forall m :: 0 <= m < |order| ==> order[m] in sorted)
    && (forall m :: 0 <= m < j && m < |order| ==> sorted[order[m]] == SortByStart(WithKey(rows, order[m])))
    && (forall m :: j <= m < |order| ==> sorted[order[m]] == WithKey(rows, order[m]))
  }

  lemma SortStep(rows: seq<Row>, order: seq<string>, sorted: map<string, seq<Row>>, j: nat)
    requires NoDup(order) && j < |order| && SortedUpTo(rows, order, sorted, j)
    ensures order[j] in sorted
    ensures SortedUpTo(rows, order, sorted[order[j] := SortByStart(sorted[order[j]])], j + 1)
  {
    var k := order[j];
    var s' := sorted[k := SortByStart(sorted[k])];
    forall m | 0 <= m < |order| && m != j ensures s'[order[m]] == sorted[order[m]] {
      if m < j { assert order[m] != order[j]; } else { assert order[j] != order[m]; }
    }
  }

  lemma GroupsAre(rows: seq<Row>, groups: seq<Group>)
    requires |groups| == |FirstKeys(rows)|
    requires forall m :: 0 <= m < |groups| ==> groups[m] == GroupOf(rows, FirstKeys(rows)[m])
    ensures groups == GroupsOf(rows)
  {
  }
}
