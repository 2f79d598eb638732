/**
 * The rank engine: the rank table of one race (`buildRankMap`), the first-row
 * lookup by athlete key (`buildLookup`) and the combined two-race ranking
 * (`buildCombinedRanks`).
 */
module Ranking {
  import opened Wrappers
  import opened Sequences
  import opened StableSort
  import opened Positions
  import opened RaceFile

  // ---------------------------------------------------------------- rank table of one race

  /** A row kept by `filter(r => r.time != null)`. */
  function TimedRow(r: Row): (o: Option<Row>)
    ensures o.Some? <==> r.time.Some?
    ensures o.Some? ==> o.value == r
  {
    if r.time.Some? then Some(r) else None
  }

  /** The rows that have a time, in input order. */
  function Timed(rows: seq<Row>): (t: seq<Row>)
    ensures |t| <= |rows|
  {
    FilterMap(rows, TimedRow)
  }

  /** The sort key of a timed row. */
  function FinishTime(r: Row): real {
    r.time.GetOr(0.0)
  }

  function RowKey(r: Row): string {
    r.key
  }

  /** Each athlete key of a timed row with the position, from 1, of its row in the
      rows sorted by ascending time; a key with several timed rows keeps the
      position of the last. */
  function BuildRankMap(rows: seq<Row>): map<string, nat> {
    Ranks(Timed(rows), FinishTime, RowKey)
  }

  /** The timed rows are exactly the rows with a time. */
  lemma TimedMember(rows: seq<Row>, r: Row)
    ensures r in Timed(rows) <==> r in rows && r.time.Some?
  {
    FilterMapMember(rows, TimedRow, r);
  }

  /** The place of a timed row among the timed rows. */
  lemma TimedIndex(rows: seq<Row>, i: nat) returns (j: nat)
    requires i < |rows| && rows[i].time.Some?
    ensures j == |Timed(rows[..i])| && j < |Timed(rows)| && Timed(rows)[j] == rows[i]
  {
    j := FilterMapIndex(rows, TimedRow, i);
  }

  /** A key occurs in at most one timed row. */
  predicate TimedOnce(rows: seq<Row>, k: string) {
    AtMostOnce(Timed(rows), RowKey, k)
  }

  /** Exactly the keys of the rows with a time are ranked. */
  lemma RankMapDomain(rows: seq<Row>, k: string)
    ensures k in BuildRankMap(rows) <==> exists i :: 0 <= i < |rows| && rows[i].time.Some? && rows[i].key == k
  {
    var t := Timed(rows);
    RanksDomain(t, FinishTime, RowKey, k);
    if k in BuildRankMap(rows) {
      var j :| 0 <= j < |t| && RowKey(t[j]) == k;
      var i := FilterMapSource(rows, TimedRow, j);
    }
    if exists i :: 0 <= i < |rows| && rows[i].time.Some? && rows[i].key == k {
      var i :| 0 <= i < |rows| && rows[i].time.Some? && rows[i].key == k;
      var j := TimedIndex(rows, i);
      assert RowKey(t[j]) == k;
    }
  }

  /** Every rank lies between 1 and the number of timed rows. */
  lemma RankMapBounded(rows: seq<Row>, k: string)
    requires k in BuildRankMap(rows)
    ensures 1 <= BuildRankMap(rows)[k] <= |Timed(rows)|
  {
    RanksBounded(Timed(rows), FinishTime, RowKey, k);
  }

  /** Different athletes never share a rank. */
  lemma RankMapInjective(rows: seq<Row>, k1: string, k2: string)
    requires k1 in BuildRankMap(rows) && k2 in BuildRankMap(rows) && k1 != k2
    ensures BuildRankMap(rows)[k1] != BuildRankMap(rows)[k2]
  {
    RanksInjective(Timed(rows), FinishTime, RowKey, k1, k2);
  }

  /** A duplicated key keeps the position of its last row in the sorted timed rows:
      the row there has the key, and no later row does. */
  lemma RankMapLastWins(rows: seq<Row>, k: string)
    requires k in BuildRankMap(rows)
    ensures var s := SortBy(Timed(rows), FinishTime);
            var n := BuildRankMap(rows)[k];
            && 1 <= n <= |s| && RowKey(s[n - 1]) == k
            && forall j :: n <= j < |s| ==> RowKey(s[j]) != k
  {
    var s := SortBy(Timed(rows), FinishTime);
    assert BuildRankMap(rows) == LastPositions(s, RowKey);
    LastPositionsAt(s, RowKey, k);
  }

  /** Among athletes with one timed row each, the faster gets the smaller rank. */
  lemma RankMapFaster(rows: seq<Row>, a: nat, b: nat)
    requires a < |rows| && b < |rows|
    requires rows[a].time.Some? && rows[b].time.Some?
    requires TimedOnce(rows, rows[a].key) && TimedOnce(rows, rows[b].key)
    requires rows[a].time.value < rows[b].time.value
    ensures var m := BuildRankMap(rows);
            rows[a].key in m && rows[b].key in m && m[rows[a].key] < m[rows[b].key]
  {
    var ja := TimedIndex(rows, a);
    var jb := TimedIndex(rows, b);
    RanksFaster(Timed(rows), FinishTime, RowKey, ja, jb);
  }

  /** Among athletes with one timed row each, equal times keep the input order. */
  lemma RankMapTies(rows: seq<Row>, a: nat, b: nat)
    requires a < b < |rows|
    requires rows[a].time.Some? && rows[b].time.Some?
    requires TimedOnce(rows, rows[a].key) && TimedOnce(rows, rows[b].key)
    requires rows[a].time.value == rows[b].time.value
    ensures var m := BuildRankMap(rows);
            rows[a].key in m && rows[b].key in m && m[rows[a].key] < m[rows[b].key]
  {
    var ja := TimedIndex(rows, a);
    var jb := TimedIndex(rows, b);
    FilterMapOrder(rows, TimedRow, a, b);
    RanksTies(Timed(rows), FinishTime, RowKey, ja, jb);
  }

  // ---------------------------------------------------------------- lookup by key

  /** The lookup after visiting `rows` starting from `m`: a row is stored only under a
      key not yet present. */
  function LookupFrom(rows: seq<Row>, m: map<string, Row>): map<string, Row> {
    if rows == [] then m
    else LookupFrom(rows[1..], if rows[0].key in m then m else m[rows[0].key := rows[0]])
  }

  /** Each key of `rows` with the first row that carries it. */
  function BuildLookup(rows: seq<Row>): map<string, Row> {
    LookupFrom(rows, map[])
  }

  /** Keys already present stay, and exactly the keys of the visited rows are added. */
  lemma {:induction false} LookupFromDomain(rows: seq<Row>, m: map<string, Row>, k: string)
    ensures k in LookupFrom(rows, m) <==> k in m || exists i :: 0 <= i < |rows| && rows[i].key == k
  {
    if rows != [] {
      var m' := if rows[0].key in m then m else m[rows[0].key := rows[0]];
      LookupFromDomain(rows[1..], m', k);
      if exists i :: 0 <= i < |rows| && rows[i].key == k {
        var i :| 0 <= i < |rows| && rows[i].key == k;
        if i > 0 {
          assert rows[1..][i - 1] == rows[i];
        }
      }
      if exists i :: 0 <= i < |rows[1..]| && rows[1..][i].key == k {
        var i :| 0 <= i < |rows[1..]| && rows[1..][i].key == k;
        assert rows[i + 1].key == k;
      }
    }
  }

  /** An entry already present is never replaced. */
  lemma {:induction false} LookupFromKeeps(rows: seq<Row>, m: map<string, Row>, k: string)
    requires k in m
    ensures k in LookupFrom(rows, m) && LookupFrom(rows, m)[k] == m[k]
  {
    if rows != [] {
      var m' := if rows[0].key in m then m else m[rows[0].key := rows[0]];
      LookupFromKeeps(rows[1..], m', k);
    }
  }

  /** A key absent from `m` is stored with the first visited row that carries it. */
  lemma {:induction false} LookupFromFirst(rows: seq<Row>, m: map<string, Row>, i: nat)
    requires i < |rows| && rows[i].key !in m
    requires forall j :: 0 <= j < i ==> rows[j].key != rows[i].key
    ensures rows[i].key in LookupFrom(rows, m) && LookupFrom(rows, m)[rows[i].key] == rows[i]
  {
    if i == 0 {
      LookupFromKeeps(rows[1..], m[rows[0].key := rows[0]], rows[0].key);
    } else {
      var m' := if rows[0].key in m then m else m[rows[0].key := rows[0]];
      assert rows[1..][i - 1] == rows[i];
      forall j | 0 <= j < i - 1
        ensures rows[1..][j].key != rows[i].key
      {
        assert rows[1..][j] == rows[j + 1];
      }
      LookupFromFirst(rows[1..], m', i - 1);
    }
  }

  /** The lookup holds exactly the keys of the rows. */
  lemma LookupDomain(rows: seq<Row>, k: string)
    ensures k in BuildLookup(rows) <==> exists i :: 0 <= i < |rows| && rows[i].key == k
  {
    LookupFromDomain(rows, map[], k);
  }

  /** Each key's entry is the first row with that key; later duplicates never change it. */
  lemma LookupFirst(rows: seq<Row>, i: nat)
    requires i < |rows| && forall j :: 0 <= j < i ==> rows[j].key != rows[i].key
    ensures rows[i].key in BuildLookup(rows) && BuildLookup(rows)[rows[i].key] == rows[i]
  {
    LookupFromFirst(rows, map[], i);
  }

  /** Every entry is a row of the input stored under its own key. */
  lemma LookupEntry(rows: seq<Row>, k: string) returns (i: nat)
    requires k in BuildLookup(rows)
    ensures i < |rows| && rows[i] == BuildLookup(rows)[k] && rows[i].key == k
  {
    LookupDomain(rows, k);
    var i0 :| 0 <= i0 < |rows| && rows[i0].key == k;
    i := FirstWithKey(rows, k, i0);
    LookupFirst(rows, i);
  }

  /** The first index at or below `i0` whose row has key `k`. */
  lemma {:induction false} FirstWithKey(rows: seq<Row>, k: string, i0: nat) returns (i: nat)
    requires i0 < |rows| && rows[i0].key == k
    ensures i <= i0 && rows[i].key == k && forall j :: 0 <= j < i ==> rows[j].key != k
  {
    if exists j :: 0 <= j < i0 && rows[j].key == k {
      var j :| 0 <= j < i0 && rows[j].key == k;
      i := FirstWithKey(rows, k, j);
    } else {
      i := i0;
    }
  }

  /** Visiting one more row adds it only under a new key. */
  lemma {:induction false} LookupFromAppend(rows: seq<Row>, m: map<string, Row>, x: Row)
    ensures var l := LookupFrom(rows, m);
            LookupFrom(rows + [x], m) == if x.key in l then l else l[x.key := x]
  {
    if rows == [] {
      var one: seq<Row> := [x];
      assert one[1..] == [];
    } else {
      var m' := if rows[0].key in m then m else m[rows[0].key := rows[0]];
      assert (rows + [x])[0] == rows[0];
      assert (rows + [x])[1..] == rows[1..] + [x];
      LookupFromAppend(rows[1..], m', x);
    }
  }

  lemma LookupAppend(rows: seq<Row>, x: Row)
    ensures var l := BuildLookup(rows);
            BuildLookup(rows + [x]) == if x.key in l then l else l[x.key := x]
  {
    LookupFromAppend(rows, map[], x);
  }

  // ---------------------------------------------------------------- combined ranking

  /** A combined standing: the rank and the sum of both races' times. */
  datatype Combined = Combined(rank: nat, time: real)

  /** An athlete timed in both races, with the sum of the times. */
  datatype Pair = Pair(key: string, time: real)

  function PairKey(p: Pair): string {
    p.key
  }

  function PairTime(p: Pair): real {
    p.time
  }

  /** The sum of key `k`'s times in both lookups, when both hold a timed row for it. */
  function BothTimes(fs: map<string, Row>, cl: map<string, Row>, k: string): (t: Option<real>)
    ensures t.Some? <==> k in fs && k in cl && fs[k].time.Some? && cl[k].time.Some?
    ensures t.Some? ==> t.value == fs[k].time.value + cl[k].time.value
  {
    match (Get(fs, k), Get(cl, k))
    case (Some(f), Some(c)) =>
      if f.time.Some? && c.time.Some? then Some(f.time.value + c.time.value) else None
    case _ => None
  }

  /** The entry the loop over `keys` pushes for key `k`, if any. */
  function PairOf(fs: map<string, Row>, cl: map<string, Row>): (f: string -> Option<Pair>) {
    (k: string) => match BothTimes(fs, cl, k)
         case Some(t) => Some(Pair(k, t))
         case None => None
  }

  lemma PairOfMeans(fs: map<string, Row>, cl: map<string, Row>, k: string)
    ensures PairOf(fs, cl)(k).Some? <==> BothTimes(fs, cl, k).Some?
    ensures PairOf(fs, cl)(k).Some? ==> PairOf(fs, cl)(k).value == Pair(k, BothTimes(fs, cl, k).value)
  {
  }

  /** The array `combined` before sorting. */
  function Paired(fs: map<string, Row>, cl: map<string, Row>, keys: seq<string>): (ps: seq<Pair>)
    ensures |ps| <= |keys|
  {
    FilterMap(keys, PairOf(fs, cl))
  }

  /** The table `forEach((r, i) => map.set(r.key, { rank: i + 1, time: r.time }))` fills. */
  function Table(s: seq<Pair>): map<string, Combined> {
    if s == [] then map[]
    else Table(s[..|s| - 1])[s[|s| - 1].key := Combined(|s|, s[|s| - 1].time)]
  }

  /** Each key in `keys` timed in both races, with its rank by ascending total time and
      that total. */
  function BuildCombinedRanks(fs: map<string, Row>, cl: map<string, Row>, keys: seq<string>): map<string, Combined> {
    Table(SortBy(Paired(fs, cl, keys), PairTime))
  }

  /** The table's ranks are the last positions of the keys, and its times those of the
      elements there. */
  lemma {:induction false} TableAt(s: seq<Pair>, k: string)
    ensures k in Table(s) <==> k in LastPositions(s, PairKey)
    ensures k in Table(s) ==> var n := LastPositions(s, PairKey)[k];
                             1 <= n <= |s| && Table(s)[k] == Combined(n, s[n - 1].time)
  {
    if s != [] {
      var init := s[..|s| - 1];
      TableAt(init, k);
      if s[|s| - 1].key != k && k in Table(init) {
        LastPositionsAt(init, PairKey, k);
        var n := LastPositions(init, PairKey)[k];
        assert s[n - 1] == init[n - 1];
      }
    }
  }

  /** Every pushed entry is its key's total, and its key is one of `keys`. */
  lemma PairedEntry(fs: map<string, Row>, cl: map<string, Row>, keys: seq<string>, j: nat)
    requires j < |Paired(fs, cl, keys)|
    ensures var p := Paired(fs, cl, keys)[j];
            p.key in keys && BothTimes(fs, cl, p.key) == Some(p.time)
  {
    var i := FilterMapSource(keys, PairOf(fs, cl), j);
    PairOfMeans(fs, cl, keys[i]);
  }

  /** A key has an entry exactly when it is one of `keys` and timed in both races. */
  lemma PairedMember(fs: map<string, Row>, cl: map<string, Row>, keys: seq<string>, k: string)
    ensures (exists j :: 0 <= j < |Paired(fs, cl, keys)| && Paired(fs, cl, keys)[j].key == k)
            <==> k in keys && BothTimes(fs, cl, k).Some?
  {
    var ps := Paired(fs, cl, keys);
    if exists j :: 0 <= j < |ps| && ps[j].key == k {
      var j :| 0 <= j < |ps| && ps[j].key == k;
      PairedEntry(fs, cl, keys, j);
    }
    if k in keys && BothTimes(fs, cl, k).Some? {
      var i :| 0 <= i < |keys| && keys[i] == k;
      PairOfMeans(fs, cl, k);
      var j := FilterMapIndex(keys, PairOf(fs, cl), i);
      assert ps[j].key == k;
    }
  }

  /** Exactly the keys in `keys` with a time in both races get a combined standing. */
  lemma CombinedDomain(fs: map<string, Row>, cl: map<string, Row>, keys: seq<string>, k: string)
    ensures k in BuildCombinedRanks(fs, cl, keys) <==> k in keys && BothTimes(fs, cl, k).Some?
  {
    var ps := Paired(fs, cl, keys);
    TableAt(SortBy(ps, PairTime), k);
    RanksDomain(ps, PairTime, PairKey, k);
    PairedMember(fs, cl, keys, k);
  }

  /** A combined standing's time is the sum of the athlete's two times (see `BothTimes`),
      and its rank lies between 1 and the number of athletes timed in both. */
  lemma CombinedTime(fs: map<string, Row>, cl: map<string, Row>, keys: seq<string>, k: string)
    requires k in BuildCombinedRanks(fs, cl, keys)
    ensures var c := BuildCombinedRanks(fs, cl, keys)[k];
            1 <= c.rank <= |Paired(fs, cl, keys)| && BothTimes(fs, cl, k) == Some(c.time)
  {
    var ps := Paired(fs, cl, keys);
    var s := SortBy(ps, PairTime);
    TableEntry(fs, cl, keys, s, k);
  }

  /** `CombinedTime` for the table of any permutation of the entries. */
  lemma TableEntry(fs: map<string, Row>, cl: map<string, Row>, keys: seq<string>, s: seq<Pair>, k: string)
    requires multiset(s) == multiset(Paired(fs, cl, keys)) && k in Table(s)
    ensures 1 <= Table(s)[k].rank <= |s| && BothTimes(fs, cl, k) == Some(Table(s)[k].time)
  {
    var n := TableKeyAt(s, k);
    PermutedEntry(fs, cl, keys, s, n - 1);
  }

  /** A key of the table is ranked at a position holding an element with that key. */
  lemma TableKeyAt(s: seq<Pair>, k: string) returns (n: nat)
    requires k in Table(s)
    ensures 1 <= n <= |s| && s[n - 1].key == k && Table(s)[k] == Combined(n, s[n - 1].time)
  {
    TableAt(s, k);
    LastPositionsAt(s, PairKey, k);
    n := LastPositions(s, PairKey)[k];
    assert PairKey(s[n - 1]) == k;
  }

  /** Every element of a permutation of the entries is its key's total. */
  lemma PermutedEntry(fs: map<string, Row>, cl: map<string, Row>, keys: seq<string>, s: seq<Pair>, p: nat)
    requires multiset(s) == multiset(Paired(fs, cl, keys)) && p < |s|
    ensures BothTimes(fs, cl, s[p].key) == Some(s[p].time)
  {
    var ps := Paired(fs, cl, keys);
    assert s[p] in multiset(ps);
    var j :| 0 <= j < |ps| && ps[j] == s[p];
    PairedEntry(fs, cl, keys, j);
  }

  /** With distinct keys (the keys come from a `Set`), no key has two entries. */
  lemma PairedDistinct(fs: map<string, Row>, cl: map<string, Row>, keys: seq<string>)
    requires Distinct(keys)
    ensures DistinctKeys(Paired(fs, cl, keys), PairKey)
  {
    var ps := Paired(fs, cl, keys);
    forall a, b | 0 <= a < b < |ps|
      ensures PairKey(ps[a]) != PairKey(ps[b])
    {
      var i := FilterMapSource(keys, PairOf(fs, cl), a);
      var j := FilterMapSource(keys, PairOf(fs, cl), b);
      PairOfMeans(fs, cl, keys[i]);
      PairOfMeans(fs, cl, keys[j]);
    }
  }

  /** A key in `keys` timed in both races occurs once among the entries. */
  lemma PairedOnce(fs: map<string, Row>, cl: map<string, Row>, keys: seq<string>, k: string)
    requires Distinct(keys)
    ensures AtMostOnce(Paired(fs, cl, keys), PairKey, k)
  {
    PairedDistinct(fs, cl, keys);
    DistinctAtMostOnce(Paired(fs, cl, keys), PairKey, k);
  }

  /** With distinct keys the combined ranks are exactly 1 to the number of athletes
      timed in both races. */
  lemma CombinedDense(fs: map<string, Row>, cl: map<string, Row>, keys: seq<string>, r: nat)
    requires Distinct(keys) && 1 <= r <= |Paired(fs, cl, keys)|
    ensures exists k :: k in BuildCombinedRanks(fs, cl, keys) && BuildCombinedRanks(fs, cl, keys)[k].rank == r
  {
    var ps := Paired(fs, cl, keys);
    PairedDistinct(fs, cl, keys);
    RanksDense(ps, PairTime, PairKey, r);
    var k :| k in Ranks(ps, PairTime, PairKey) && Ranks(ps, PairTime, PairKey)[k] == r;
    TableAt(SortBy(ps, PairTime), k);
    assert BuildCombinedRanks(fs, cl, keys)[k].rank == r;
  }

  /** Different athletes never share a combined rank. */
  lemma CombinedInjective(fs: map<string, Row>, cl: map<string, Row>, keys: seq<string>, k1: string, k2: string)
    requires k1 in BuildCombinedRanks(fs, cl, keys) && k2 in BuildCombinedRanks(fs, cl, keys) && k1 != k2
    ensures BuildCombinedRanks(fs, cl, keys)[k1].rank != BuildCombinedRanks(fs, cl, keys)[k2].rank
  {
    var ps := Paired(fs, cl, keys);
    TableAt(SortBy(ps, PairTime), k1);
    TableAt(SortBy(ps, PairTime), k2);
    RanksInjective(ps, PairTime, PairKey, k1, k2);
  }

  /** The entry of a key that has one, found by its index in `keys`. */
  lemma PairedIndex(fs: map<string, Row>, cl: map<string, Row>, keys: seq<string>, i: nat) returns (j: nat)
    requires i < |keys| && BothTimes(fs, cl, keys[i]).Some?
    ensures j == |Paired(fs, cl, keys[..i])| && j < |Paired(fs, cl, keys)|
    ensures Paired(fs, cl, keys)[j] == Pair(keys[i], BothTimes(fs, cl, keys[i]).value)
  {
    PairOfMeans(fs, cl, keys[i]);
    j := FilterMapIndex(keys, PairOf(fs, cl), i);
  }

  /** With distinct keys, a strictly smaller total gives a strictly smaller combined rank. */
  lemma CombinedFaster(fs: map<string, Row>, cl: map<string, Row>, keys: seq<string>, a: nat, b: nat)
    requires Distinct(keys) && a < |keys| && b < |keys|
    requires BothTimes(fs, cl, keys[a]).Some? && BothTimes(fs, cl, keys[b]).Some?
    requires BothTimes(fs, cl, keys[a]).value < BothTimes(fs, cl, keys[b]).value
    ensures var m := BuildCombinedRanks(fs, cl, keys);
            keys[a] in m && keys[b] in m && m[keys[a]].rank < m[keys[b]].rank
  {
    var ps := Paired(fs, cl, keys);
    var ja := PairedIndex(fs, cl, keys, a);
    var jb := PairedIndex(fs, cl, keys, b);
    PairedOnce(fs, cl, keys, keys[a]);
    PairedOnce(fs, cl, keys, keys[b]);
    RanksFaster(ps, PairTime, PairKey, ja, jb);
    TableAt(SortBy(ps, PairTime), keys[a]);
    TableAt(SortBy(ps, PairTime), keys[b]);
  }

  /** With distinct keys, equal totals are ranked in the order of `keys`. */
  lemma CombinedTies(fs: map<string, Row>, cl: map<string, Row>, keys: seq<string>, a: nat, b: nat)
    requires Distinct(keys) && a < b < |keys|
    requires BothTimes(fs, cl, keys[a]).Some? && BothTimes(fs, cl, keys[b]).Some?
    requires BothTimes(fs, cl, keys[a]).value == BothTimes(fs, cl, keys[b]).value
    ensures var m := BuildCombinedRanks(fs, cl, keys);
            keys[a] in m && keys[b] in m && m[keys[a]].rank < m[keys[b]].rank
  {
    var ps := Paired(fs, cl, keys);
    var ja := PairedIndex(fs, cl, keys, a);
    var jb := PairedIndex(fs, cl, keys, b);
    PairOfMeans(fs, cl, keys[a]);
    FilterMapOrder(keys, PairOf(fs, cl), a, b);
    PairedOnce(fs, cl, keys, keys[a]);
    PairedOnce(fs, cl, keys, keys[b]);
    RanksTies(ps, PairTime, PairKey, ja, jb);
    TableAt(SortBy(ps, PairTime), keys[a]);
    TableAt(SortBy(ps, PairTime), keys[b]);
  }

  /** A freestyle file with John Doe (10:00) and Jane Roe (11:30) and a classic file
      with John Doe alone (12:00): John is ranked first with 1320 seconds, and Jane,
      who has no classic time, gets no combined entry. */
  lemma CombinedExample(john: Row, jane: Row, johnCl: Row)
    requires john.key == "john|doe" && john.time == Some(600.0)
    requires jane.key == "jane|roe" && jane.time == Some(690.0)
    requires johnCl.key == "john|doe" && johnCl.time == Some(720.0)
    ensures BuildCombinedRanks(BuildLookup([john, jane]), BuildLookup([johnCl]), ["john|doe", "jane|roe"])
            == map["john|doe" := Combined(1, 1320.0)]
  {
    var keys := ["john|doe", "jane|roe"];
    var fs := BuildLookup([john, jane]);
    var cl := BuildLookup([johnCl]);
    assert "john|doe" != "jane|roe";
    LookupFirst([john, jane], 0);
    LookupFirst([john, jane], 1);
    LookupFirst([johnCl], 0);
    LookupDomain([johnCl], "jane|roe");
    assert BothTimes(fs, cl, "john|doe") == Some(1320.0);
    assert BothTimes(fs, cl, "jane|roe") == None;
    var one := [Pair("john|doe", 1320.0)];
    PairOfMeans(fs, cl, "john|doe");
    PairOfMeans(fs, cl, "jane|roe");
    var rest := keys[1..];
    assert rest == ["jane|roe"] && rest[1..] == [];
    assert FilterMap(rest, PairOf(fs, cl)) == [];
    assert Paired(fs, cl, keys) == one;
    SortBySortedInput(one, PairTime);
  }
}
