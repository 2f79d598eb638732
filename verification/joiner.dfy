/**
 * The cross-year joiner (`buildGender`): for one gender, the tables of the 2025
 * and 2026 seasons, the athletes present in both seasons in 2025 order, one
 * leaderboard row each, sorted by the 2026 combined rank with 9999 standing in
 * for a missing rank.
 */
module Joiner {
  import opened Wrappers
  import opened Sequences
  import opened StableSort
  import opened Positions
  import opened RaceFile
  import opened Ranking

  // ---------------------------------------------------------------- records

  /** One leaderboard row; every absent time or rank is `null` in the output. */
  datatype JoinRow = JoinRow(
    name: string,
    first: string,
    last: string,
    fs25Time: Option<real>,
    fs25Rank: Option<nat>,
    cl25Time: Option<real>,
    cl25Rank: Option<nat>,
    comb25Time: Option<real>,
    comb25Rank: Option<nat>,
    fs26Time: Option<real>,
    fs26Rank: Option<nat>,
    cl26Time: Option<real>,
    cl26Rank: Option<nat>,
    comb26Time: Option<real>,
    comb26Rank: Option<nat>)

  /** The tables of one season (a freestyle and a classic race) for one gender. */
  datatype Season = Season(
    fsRanks: map<string, nat>,
    clRanks: map<string, nat>,
    fs: map<string, Row>,
    cl: map<string, Row>,
    keys: seq<string>,
    comb: map<string, Combined>)

  /** A leaderboard row with the athlete key it was built for. */
  datatype Standing = Standing(key: string, row: JoinRow)

  /** The whole output: one leaderboard per gender. */
  datatype Leaderboard = Leaderboard(boys: seq<JoinRow>, girls: seq<JoinRow>)

  // ---------------------------------------------------------------- building

  function WithGender(g: Gender): Row -> Option<Row> {
    (r: Row) => if r.gender == g then Some(r) else None
  }

  /** The rows of gender `g`, in input order. */
  function OfGender(rows: seq<Row>, g: Gender): seq<Row> {
    FilterMap(rows, WithGender(g))
  }

  function Keys(rows: seq<Row>): seq<string> {
    seq(|rows|, i requires 0 <= i < |rows| => rows[i].key)
  }

  /** The tables `buildGender` derives from one season's two row lists. */
  function SeasonOf(fs: seq<Row>, cl: seq<Row>): Season {
    var fsMap := BuildLookup(fs);
    var clMap := BuildLookup(cl);
    var keys := Dedup(Keys(fs) + Keys(cl));
    Season(BuildRankMap(fs), BuildRankMap(cl), fsMap, clMap, keys, BuildCombinedRanks(fsMap, clMap, keys))
  }

  /** The row that names athlete `k`: the first lookup among 2025 freestyle, 2025
      classic, 2026 freestyle and 2026 classic that holds one. */
  function Representative(y25: Season, y26: Season, k: string): Option<Row> {
    Get(y25.fs, k).Or(Get(y25.cl, k)).Or(Get(y26.fs, k)).Or(Get(y26.cl, k))
  }

  /** `map.get(k)?.time ?? null` */
  function TimeIn(m: map<string, Row>, k: string): Option<real> {
    match Get(m, k)
    case Some(r) => r.time
    case None => None
  }

  function CombTime(c: Option<Combined>): Option<real> {
    match c
    case Some(x) => Some(x.time)
    case None => None
  }

  function CombRank(c: Option<Combined>): Option<nat> {
    match c
    case Some(x) => Some(x.rank)
    case None => None
  }

  /** The leaderboard row of athlete `k`, named after `ref`. */
  function RowFor(y25: Season, y26: Season, k: string, ref: Row): JoinRow {
    JoinRow(
      ref.first + " " + ref.last, ref.first, ref.last,
      TimeIn(y25.fs, k), Get(y25.fsRanks, k),
      TimeIn(y25.cl, k), Get(y25.clRanks, k),
      CombTime(Get(y25.comb, k)), CombRank(Get(y25.comb, k)),
      TimeIn(y26.fs, k), Get(y26.fsRanks, k),
      TimeIn(y26.cl, k), Get(y26.clRanks, k),
      CombTime(Get(y26.comb, k)), CombRank(Get(y26.comb, k)))
  }

  /** The standing the loop over the common keys pushes for `k`. */
  function StandingOf(y25: Season, y26: Season): string -> Option<Standing> {
    (k: string) => match Representative(y25, y26, k)
         case Some(ref) => Some(Standing(k, RowFor(y25, y26, k, ref)))
         case None => None
  }

  function In(keys: seq<string>): string -> Option<string> {
    (k: string) => if k in keys then Some(k) else None
  }

  /** The 2025 keys that also occur in 2026, in 2025 order. */
  function BothKeys(y25: Season, y26: Season): seq<string> {
    FilterMap(y25.keys, In(y26.keys))
  }

  /** The sort key of the output: the 2026 combined rank, 9999 when there is none. */
  function BoardRank(st: Standing): real {
    st.row.comb26Rank.GetOr(9999) as real
  }

  function StandingKey(st: Standing): string {
    st.key
  }

  /** The standings before the final sort. */
  function Unsorted(y25: Season, y26: Season): seq<Standing> {
    FilterMap(BothKeys(y25, y26), StandingOf(y25, y26))
  }

  /** The standings of the two seasons, sorted by `BoardRank`. */
  function Board(y25: Season, y26: Season): seq<Standing> {
    SortBy(Unsorted(y25, y26), BoardRank)
  }

  /** The standings of gender `g`. */
  function Standings(fs25: seq<Row>, cl25: seq<Row>, fs26: seq<Row>, cl26: seq<Row>, g: Gender): seq<Standing> {
    Board(SeasonOf(OfGender(fs25, g), OfGender(cl25, g)), SeasonOf(OfGender(fs26, g), OfGender(cl26, g)))
  }

  /** The rows of a list of standings, in order. */
  function RowsOf(st: seq<Standing>): (rows: seq<JoinRow>)
    ensures |rows| == |st| && forall i :: 0 <= i < |rows| ==> rows[i] == st[i].row
  {
    seq(|st|, i requires 0 <= i < |st| => st[i].row)
  }

  /** Leaderboard row `j` carries the names of row `r`, joined by a space. */
  predicate NamedAfter(j: JoinRow, r: Row) {
    j.first == r.first && j.last == r.last && j.name == r.first + " " + r.last
  }

  /** Leaderboard row `j` is named after a 2025 row of gender `g` and athlete `k`. */
  ghost predicate NamedFrom(j: JoinRow, k: string, fs25: seq<Row>, cl25: seq<Row>, g: Gender) {
    exists r :: (r in fs25 || r in cl25) && r.gender == g && r.key == k && NamedAfter(j, r)
  }

  /** The leaderboard of gender `g`. */
  function BuildGender(fs25: seq<Row>, cl25: seq<Row>, fs26: seq<Row>, cl26: seq<Row>, g: Gender): seq<JoinRow> {
    RowsOf(Standings(fs25, cl25, fs26, cl26, g))
  }

  function BuildLeaderboard(fs25: seq<Row>, cl25: seq<Row>, fs26: seq<Row>, cl26: seq<Row>): Leaderboard {
    Leaderboard(BuildGender(fs25, cl25, fs26, cl26, Male), BuildGender(fs25, cl25, fs26, cl26, Female))
  }

  // ---------------------------------------------------------------- seasons

  /** What `SeasonOf` guarantees about the tables of one gender: the key set holds each
      key once and exactly the keys of the two lookups, every looked-up row is stored
      under its own key and has gender `g`, and the combined ranks are built from them. */
  ghost predicate Coherent(y: Season, g: Gender) {
    && Distinct(y.keys)
    && (forall k :: k in y.keys <==> k in y.fs || k in y.cl)
    && (forall k :: k in y.fs ==> y.fs[k].key == k && y.fs[k].gender == g)
    && (forall k :: k in y.cl ==> y.cl[k].key == k && y.cl[k].gender == g)
    && y.comb == BuildCombinedRanks(y.fs, y.cl, y.keys)
  }

  /** A row of gender `g`'s lookup is a row of that gender stored under its own key. */
  lemma LookupOfGender(rows: seq<Row>, g: Gender, k: string)
    requires k in BuildLookup(OfGender(rows, g))
    ensures var r := BuildLookup(OfGender(rows, g))[k];
            r in rows && r.key == k && r.gender == g
  {
    var i := LookupEntry(OfGender(rows, g), k);
    var j := FilterMapSource(rows, WithGender(g), i);
  }

  /** A key is in a list's keys exactly when a row carries it. */
  lemma KeysMember(rows: seq<Row>, k: string)
    ensures k in Keys(rows) <==> exists i :: 0 <= i < |rows| && rows[i].key == k
  {
    if k in Keys(rows) {
      var i :| 0 <= i < |Keys(rows)| && Keys(rows)[i] == k;
      assert rows[i].key == k;
    }
    if exists i :: 0 <= i < |rows| && rows[i].key == k {
      var i :| 0 <= i < |rows| && rows[i].key == k;
      assert Keys(rows)[i] == k;
    }
  }

  /** The season keys are the keys of either lookup. */
  lemma SeasonKeys(fs: seq<Row>, cl: seq<Row>, k: string)
    ensures var y := SeasonOf(fs, cl);
            k in y.keys <==> k in y.fs || k in y.cl
  {
    DedupMember(Keys(fs) + Keys(cl), k);
    KeysMember(fs, k);
    KeysMember(cl, k);
    LookupDomain(fs, k);
    LookupDomain(cl, k);
  }

  lemma SeasonCoherent(fs: seq<Row>, cl: seq<Row>, g: Gender)
    ensures Coherent(SeasonOf(OfGender(fs, g), OfGender(cl, g)), g)
  {
    var y := SeasonOf(OfGender(fs, g), OfGender(cl, g));
    DedupDistinct(Keys(OfGender(fs, g)) + Keys(OfGender(cl, g)));
    forall k
      ensures k in y.keys <==> k in y.fs || k in y.cl
    {
      SeasonKeys(OfGender(fs, g), OfGender(cl, g), k);
    }
    forall k | k in y.fs
      ensures y.fs[k].key == k && y.fs[k].gender == g
    {
      LookupOfGender(fs, g, k);
    }
    forall k | k in y.cl
      ensures y.cl[k].key == k && y.cl[k].gender == g
    {
      LookupOfGender(cl, g, k);
    }
  }

  // ---------------------------------------------------------------- the board of two seasons

  /** A common key is in both seasons' key sets. */
  lemma BothKeysMember(y25: Season, y26: Season, k: string)
    ensures k in BothKeys(y25, y26) <==> k in y25.keys && k in y26.keys
  {
    FilterMapMember(y25.keys, In(y26.keys), k);
  }

  /** Every 2025 key has a representative, and it is a 2025 row: freestyle first. */
  lemma RepresentativeFrom2025(y25: Season, y26: Season, k: string, g: Gender)
    requires Coherent(y25, g) && k in y25.keys
    ensures Representative(y25, y26, k) == Some(if k in y25.fs then y25.fs[k] else y25.cl[k])
  {
  }

  /** A common key's standing carries the key and the representative's names. */
  lemma StandingOfKey(y25: Season, y26: Season, k: string, g: Gender)
    requires Coherent(y25, g) && k in y25.keys
    ensures var ref := if k in y25.fs then y25.fs[k] else y25.cl[k];
            StandingOf(y25, y26)(k) == Some(Standing(k, RowFor(y25, y26, k, ref)))
  {
    RepresentativeFrom2025(y25, y26, k, g);
  }

  /** Every standing before the sort comes from a common key. */
  lemma UnsortedEntry(y25: Season, y26: Season, j: nat) returns (i: nat)
    requires j < |Unsorted(y25, y26)|
    ensures i < |BothKeys(y25, y26)| && j == |FilterMap(BothKeys(y25, y26)[..i], StandingOf(y25, y26))|
    ensures var k := BothKeys(y25, y26)[i];
            && Unsorted(y25, y26)[j].key == k
            && StandingOf(y25, y26)(k) == Some(Unsorted(y25, y26)[j])
  {
    i := FilterMapSource(BothKeys(y25, y26), StandingOf(y25, y26), j);
  }

  /** A common key's standing, found through the key's place in the 2025 keys. */
  lemma UnsortedIndex(y25: Season, y26: Season, g: Gender, a: nat) returns (i: nat, j: nat)
    requires Coherent(y25, g) && a < |y25.keys| && y25.keys[a] in y26.keys
    ensures i == |FilterMap(y25.keys[..a], In(y26.keys))| && i < |BothKeys(y25, y26)|
    ensures BothKeys(y25, y26)[i] == y25.keys[a]
    ensures j == |FilterMap(BothKeys(y25, y26)[..i], StandingOf(y25, y26))|
    ensures j < |Unsorted(y25, y26)| && Unsorted(y25, y26)[j].key == y25.keys[a]
  {
    var both := BothKeys(y25, y26);
    i := FilterMapIndex(y25.keys, In(y26.keys), a);
    StandingOfKey(y25, y26, both[i], g);
    j := FilterMapIndex(both, StandingOf(y25, y26), i);
  }

  /** Before the sort, the common keys' standings follow the 2025 key order. */
  lemma UnsortedOrder(y25: Season, y26: Season, g: Gender, a: nat, b: nat) returns (ja: nat, jb: nat)
    requires Coherent(y25, g) && a < b < |y25.keys|
    requires y25.keys[a] in y26.keys && y25.keys[b] in y26.keys
    ensures ja < jb < |Unsorted(y25, y26)|
    ensures Unsorted(y25, y26)[ja].key == y25.keys[a] && Unsorted(y25, y26)[jb].key == y25.keys[b]
  {
    var ia, ib;
    ia, ja := UnsortedIndex(y25, y26, g, a);
    ib, jb := UnsortedIndex(y25, y26, g, b);
    FilterMapOrder(y25.keys, In(y26.keys), a, b);
    StandingOfKey(y25, y26, y25.keys[a], g);
    FilterMapOrder(BothKeys(y25, y26), StandingOf(y25, y26), ia, ib);
  }

  /** The common keys are distinct. */
  lemma BothKeysDistinct(y25: Season, y26: Season)
    requires Distinct(y25.keys)
    ensures Distinct(BothKeys(y25, y26))
  {
    var both := BothKeys(y25, y26);
    forall a, b | 0 <= a < b < |both|
      ensures both[a] != both[b]
    {
      var i := FilterMapSource(y25.keys, In(y26.keys), a);
      var j := FilterMapSource(y25.keys, In(y26.keys), b);
    }
  }

  /** The standings before the sort carry distinct keys. */
  lemma UnsortedDistinct(y25: Season, y26: Season, g: Gender)
    requires Coherent(y25, g)
    ensures DistinctKeys(Unsorted(y25, y26), StandingKey)
  {
    var u := Unsorted(y25, y26);
    BothKeysDistinct(y25, y26);
    forall a, b | 0 <= a < b < |u|
      ensures StandingKey(u[a]) != StandingKey(u[b])
    {
      var i := UnsortedEntry(y25, y26, a);
      var j := UnsortedEntry(y25, y26, b);
    }
  }

  /** A standing's sort key is its athlete's 2026 combined rank, or 9999. */
  lemma UnsortedRank(y25: Season, y26: Season, j: nat)
    requires j < |Unsorted(y25, y26)|
    ensures BoardRank(Unsorted(y25, y26)[j]) == SortRank(y26, Unsorted(y25, y26)[j].key)
  {
    var i := UnsortedEntry(y25, y26, j);
  }

  /** An athlete is on the board exactly when it is in both seasons' key sets. */
  lemma BoardKeys(y25: Season, y26: Season, g: Gender, k: string)
    requires Coherent(y25, g)
    ensures (exists p :: 0 <= p < |Board(y25, y26)| && Board(y25, y26)[p].key == k)
            <==> k in y25.keys && k in y26.keys
  {
    var u := Unsorted(y25, y26);
    var b := Board(y25, y26);
    BothKeysMember(y25, y26, k);
    if exists p :: 0 <= p < |b| && b[p].key == k {
      var p :| 0 <= p < |b| && b[p].key == k;
      var j := SortedFromInput(u, BoardRank, p);
      var i := UnsortedEntry(y25, y26, j);
    }
    if k in y25.keys && k in y26.keys {
      var a :| 0 <= a < |y25.keys| && y25.keys[a] == k;
      var i, j := UnsortedIndex(y25, y26, g, a);
      InputInSorted(u, BoardRank, j);
    }
  }

  /** No athlete is on the board twice. */
  lemma BoardDistinct(y25: Season, y26: Season, g: Gender)
    requires Coherent(y25, g)
    ensures DistinctKeys(Board(y25, y26), StandingKey)
  {
    UnsortedDistinct(y25, y26, g);
    SortByDistinct(Unsorted(y25, y26), BoardRank, StandingKey);
  }

  /** The board is in non-decreasing order of the 2026 combined rank, missing ranks
      counting as 9999, and athletes of equal sort key are in their order before the sort. */
  lemma BoardSorted(y25: Season, y26: Season)
    ensures Sorted(Board(y25, y26), BoardRank)
    ensures SameTies(Board(y25, y26), Unsorted(y25, y26), BoardRank)
  {
    SortByMeetsSpec(Unsorted(y25, y26), BoardRank);
  }

  /** The sort key of athlete `k`. */
  function SortRank(y26: Season, k: string): real {
    CombRank(Get(y26.comb, k)).GetOr(9999) as real
  }

  /** Athletes with equal sort keys stay in 2025 key order. */
  lemma BoardTies(y25: Season, y26: Season, g: Gender, a: nat, b: nat)
    requires Coherent(y25, g) && a < b < |y25.keys|
    requires y25.keys[a] in y26.keys && y25.keys[b] in y26.keys
    requires SortRank(y26, y25.keys[a]) == SortRank(y26, y25.keys[b])
    ensures exists p, q :: 0 <= p < q < |Board(y25, y26)|
              && Board(y25, y26)[p].key == y25.keys[a] && Board(y25, y26)[q].key == y25.keys[b]
  {
    var u := Unsorted(y25, y26);
    var ja, jb := UnsortedOrder(y25, y26, g, a, b);
    UnsortedRank(y25, y26, ja);
    UnsortedRank(y25, y26, jb);
    KeepsTies(u, BoardRank, ja, jb);
    var s := SortBy(u, BoardRank);
    var p, q :| 0 <= p < q < |s| && s[p] == u[ja] && s[q] == u[jb];
    assert s == Board(y25, y26);
    assert s[p].key == y25.keys[a] && s[q].key == y25.keys[b];
  }

  /** A standing on the board: its key is common to both seasons and it is the
      standing built for that key from the representative 2025 row. */
  lemma BoardEntry(y25: Season, y26: Season, g: Gender, p: nat)
    requires Coherent(y25, g) && p < |Board(y25, y26)|
    ensures var st := Board(y25, y26)[p];
            && st.key in y25.keys && st.key in y26.keys
            && var ref := if st.key in y25.fs then y25.fs[st.key] else y25.cl[st.key];
               st == Standing(st.key, RowFor(y25, y26, st.key, ref))
  {
    var u := Unsorted(y25, y26);
    var j := SortedFromInput(u, BoardRank, p);
    var i := UnsortedEntry(y25, y26, j);
    BothKeysMember(y25, y26, u[j].key);
    StandingOfKey(y25, y26, u[j].key, g);
  }

  /** Each row is named after the athlete's first 2025 freestyle row of gender `g`, or
      failing that the first 2025 classic one. */
  lemma BoardRepresentative(y25: Season, y26: Season, g: Gender, p: nat)
    requires Coherent(y25, g) && p < |Board(y25, y26)|
    ensures var st := Board(y25, y26)[p];
            && (st.key in y25.fs || st.key in y25.cl)
            && var ref := if st.key in y25.fs then y25.fs[st.key] else y25.cl[st.key];
               && ref.key == st.key && ref.gender == g
               && st.row.first == ref.first && st.row.last == ref.last
               && st.row.name == ref.first + " " + ref.last
  {
    BoardEntry(y25, y26, g, p);
  }

  /** A season's combined standing of one of its keys: present exactly when the
      athlete has a time in both races, with the sum of the times, and ranked within
      the number of its keys. */
  lemma SeasonCombined(y: Season, g: Gender, k: string)
    requires Coherent(y, g) && k in y.keys
    ensures CombTime(Get(y.comb, k)) == BothTimes(y.fs, y.cl, k)
    ensures CombRank(Get(y.comb, k)).Some? <==> BothTimes(y.fs, y.cl, k).Some?
    ensures CombRank(Get(y.comb, k)).Some? ==> 1 <= CombRank(Get(y.comb, k)).value <= |y.keys|
  {
    CombinedDomain(y.fs, y.cl, y.keys, k);
    if k in y.comb {
      CombinedTime(y.fs, y.cl, y.keys, k);
    }
  }

  /** Each row's combined times are the sums of the athlete's two times of that season,
      present only for an athlete timed in both races; the 2026 rank is present
      exactly when the 2026 combined time is. */
  lemma BoardCombined(y25: Season, y26: Season, g: Gender, p: nat)
    requires Coherent(y25, g) && Coherent(y26, g) && p < |Board(y25, y26)|
    ensures var st := Board(y25, y26)[p];
            && st.row.comb25Time == BothTimes(y25.fs, y25.cl, st.key)
            && st.row.comb26Time == BothTimes(y26.fs, y26.cl, st.key)
            && (st.row.comb26Rank.Some? <==> st.row.comb26Time.Some?)
            && (st.row.comb26Rank.Some? ==> 1 <= st.row.comb26Rank.value <= |y26.keys|)
  {
    BoardEntry(y25, y26, g, p);
    var k := Board(y25, y26)[p].key;
    SeasonCombined(y25, g, k);
    SeasonCombined(y26, g, k);
  }

  /** With fewer than 9999 athletes in 2026, every athlete with a 2026 combined rank is
      listed before every athlete without one. */
  lemma BoardUnrankedLast(y25: Season, y26: Season, g: Gender, p: nat, q: nat)
    requires Coherent(y25, g) && Coherent(y26, g) && |y26.keys| < 9999
    requires p < |Board(y25, y26)| && q < |Board(y25, y26)|
    requires Board(y25, y26)[p].row.comb26Rank.Some? && Board(y25, y26)[q].row.comb26Rank.None?
    ensures p < q
  {
    var b := Board(y25, y26);
    BoardCombined(y25, y26, g, p);
    assert BoardRank(b[p]) < 9999 as real;
    assert BoardRank(b[q]) == 9999 as real;
    BoardSorted(y25, y26);
    SortedBefore(b, BoardRank, p, q);
  }

  // ---------------------------------------------------------------- one gender's leaderboard

  /** Some row of `rows` has gender `g` and key `k`. */
  predicate Ran(rows: seq<Row>, g: Gender, k: string) {
    exists i :: 0 <= i < |rows| && rows[i].gender == g && rows[i].key == k
  }

  /** The lookup of gender `g` holds the keys of that gender's rows. */
  lemma LookupOfGenderDomain(rows: seq<Row>, g: Gender, k: string)
    ensures k in BuildLookup(OfGender(rows, g)) <==> Ran(rows, g, k)
  {
    var og := OfGender(rows, g);
    LookupDomain(og, k);
    if k in BuildLookup(og) {
      var j :| 0 <= j < |og| && og[j].key == k;
      var i := FilterMapSource(rows, WithGender(g), j);
    }
    if Ran(rows, g, k) {
      var i :| 0 <= i < |rows| && rows[i].gender == g && rows[i].key == k;
      var j := FilterMapIndex(rows, WithGender(g), i);
    }
  }

  /** The athletes on the leaderboard of gender `g` are exactly those with a row of that
      gender in a 2025 race and a row of that gender in a 2026 race. */
  lemma GenderKeys(fs25: seq<Row>, cl25: seq<Row>, fs26: seq<Row>, cl26: seq<Row>, g: Gender, k: string)
    ensures var st := Standings(fs25, cl25, fs26, cl26, g);
            (exists p :: 0 <= p < |st| && st[p].key == k)
            <==> (Ran(fs25, g, k) || Ran(cl25, g, k)) && (Ran(fs26, g, k) || Ran(cl26, g, k))
  {
    var y25 := SeasonOf(OfGender(fs25, g), OfGender(cl25, g));
    var y26 := SeasonOf(OfGender(fs26, g), OfGender(cl26, g));
    SeasonCoherent(fs25, cl25, g);
    BoardKeys(y25, y26, g, k);
    SeasonKeys(OfGender(fs25, g), OfGender(cl25, g), k);
    SeasonKeys(OfGender(fs26, g), OfGender(cl26, g), k);
    LookupOfGenderDomain(fs25, g, k);
    LookupOfGenderDomain(cl25, g, k);
    LookupOfGenderDomain(fs26, g, k);
    LookupOfGenderDomain(cl26, g, k);
  }

  /** The leaderboard of gender `g` lists each athlete once, in non-decreasing order of
      the 2026 combined rank with 9999 for a missing one. */
  lemma GenderOrder(fs25: seq<Row>, cl25: seq<Row>, fs26: seq<Row>, cl26: seq<Row>, g: Gender)
    ensures DistinctKeys(Standings(fs25, cl25, fs26, cl26, g), StandingKey)
    ensures Sorted(Standings(fs25, cl25, fs26, cl26, g), BoardRank)
  {
    var y25 := SeasonOf(OfGender(fs25, g), OfGender(cl25, g));
    var y26 := SeasonOf(OfGender(fs26, g), OfGender(cl26, g));
    SeasonCoherent(fs25, cl25, g);
    BoardDistinct(y25, y26, g);
    BoardSorted(y25, y26);
  }

  /** Every leaderboard row of gender `g` is named after a 2025 row of that gender and
      that athlete. */
  lemma GenderNames(fs25: seq<Row>, cl25: seq<Row>, fs26: seq<Row>, cl26: seq<Row>, g: Gender, p: nat)
    requires p < |Standings(fs25, cl25, fs26, cl26, g)|
    ensures var st := Standings(fs25, cl25, fs26, cl26, g)[p];
            exists r :: (r in fs25 || r in cl25) && r.gender == g && r.key == st.key && NamedAfter(st.row, r)
  {
    var y25 := SeasonOf(OfGender(fs25, g), OfGender(cl25, g));
    var y26 := SeasonOf(OfGender(fs26, g), OfGender(cl26, g));
    SeasonCoherent(fs25, cl25, g);
    BoardRepresentative(y25, y26, g, p);
    var k := Board(y25, y26)[p].key;
    if k in y25.fs {
      LookupOfGender(fs25, g, k);
    } else {
      LookupOfGender(cl25, g, k);
    }
  }

  /** Standings in `BoardRank` order give rows in order of the 2026 combined rank. */
  lemma RowsOfSorted(st: seq<Standing>)
    requires Sorted(st, BoardRank)
    ensures forall i, j :: 0 <= i < j < |st| ==>
              RowsOf(st)[i].comb26Rank.GetOr(9999) <= RowsOf(st)[j].comb26Rank.GetOr(9999)
  {
    forall i, j | 0 <= i < j < |st|
      ensures RowsOf(st)[i].comb26Rank.GetOr(9999) <= RowsOf(st)[j].comb26Rank.GetOr(9999)
    {
      assert BoardRank(st[i]) <= BoardRank(st[j]);
    }
  }

  /** The leaderboard of gender `g` is in non-decreasing order of the 2026 combined
      rank, a missing rank counting as 9999. */
  lemma GenderSorted(fs25: seq<Row>, cl25: seq<Row>, fs26: seq<Row>, cl26: seq<Row>, g: Gender)
    ensures var rows := BuildGender(fs25, cl25, fs26, cl26, g);
            forall i, j :: 0 <= i < j < |rows| ==> rows[i].comb26Rank.GetOr(9999) <= rows[j].comb26Rank.GetOr(9999)
  {
    GenderOrder(fs25, cl25, fs26, cl26, g);
    RowsOfSorted(Standings(fs25, cl25, fs26, cl26, g));
  }

  /** `GenderNames` for every standing of gender `g`. */
  lemma GenderNamesAll(fs25: seq<Row>, cl25: seq<Row>, fs26: seq<Row>, cl26: seq<Row>, g: Gender)
    ensures var st := Standings(fs25, cl25, fs26, cl26, g);
            forall p :: 0 <= p < |st| ==> NamedFrom(st[p].row, st[p].key, fs25, cl25, g)
  {
    var st := Standings(fs25, cl25, fs26, cl26, g);
    forall p | 0 <= p < |st|
      ensures NamedFrom(st[p].row, st[p].key, fs25, cl25, g)
    {
      GenderNames(fs25, cl25, fs26, cl26, g, p);
    }
  }

  /** The keys of a list of standings, in order: each once when the standings have
      distinct keys. */
  lemma StandingKeys(st: seq<Standing>) returns (ks: seq<string>)
    ensures |ks| == |st| && forall p :: 0 <= p < |st| ==> ks[p] == st[p].key
    ensures forall k :: k in ks <==> exists p :: 0 <= p < |st| && st[p].key == k
    ensures DistinctKeys(st, StandingKey) ==> Distinct(ks)
  {
    ks := seq(|st|, i requires 0 <= i < |st| => st[i].key);
    forall k | k in ks
      ensures exists p :: 0 <= p < |st| && st[p].key == k
    {
      var p :| 0 <= p < |ks| && ks[p] == k;
      assert st[p].key == k;
    }
    if DistinctKeys(st, StandingKey) {
      forall i, j | 0 <= i < j < |ks|
        ensures ks[i] != ks[j]
      {
        assert StandingKey(st[i]) != StandingKey(st[j]);
      }
    }
  }

  /** The leaderboard of gender `g` has one row per athlete who ran, with that gender, a
      2025 race and a 2026 race, each athlete once: `ks[p]` is the athlete of row `p`,
      which is named after a 2025 row of that athlete and gender. */
  lemma GenderRows(fs25: seq<Row>, cl25: seq<Row>, fs26: seq<Row>, cl26: seq<Row>, g: Gender) returns (ks: seq<string>)
    ensures |ks| == |BuildGender(fs25, cl25, fs26, cl26, g)|
    ensures Distinct(ks)
    ensures forall k :: k in ks <==> (Ran(fs25, g, k) || Ran(cl25, g, k)) && (Ran(fs26, g, k) || Ran(cl26, g, k))
    ensures forall p :: 0 <= p < |ks| ==> NamedFrom(BuildGender(fs25, cl25, fs26, cl26, g)[p], ks[p], fs25, cl25, g)
  {
    var st := Standings(fs25, cl25, fs26, cl26, g);
    ks := StandingKeys(st);
    GenderOrder(fs25, cl25, fs26, cl26, g);
    forall k
      ensures k in ks <==> (Ran(fs25, g, k) || Ran(cl25, g, k)) && (Ran(fs26, g, k) || Ran(cl26, g, k))
    {
      GenderKeys(fs25, cl25, fs26, cl26, g, k);
    }
    GenderNamesAll(fs25, cl25, fs26, cl26, g);
  }
}
