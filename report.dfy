/** The revenue report of one project: for every member a mining reward on
    the member's own value, a referral reward on the mining of the members
    who name this member as their recommender, and a community reward on the
    children total scaled by the member's rank; the rows listed by depth, and
    their grand total. */
module RevenueReport {
  import opened Types
  import opened Tree
  import opened Seqs
  import opened Text
  import opened Metrics

  datatype ReportRow = ReportRow(
    id: string,
    recommender: string,
    name: string,
    level: nat,
    rank: nat,
    mining: real,
    referral: real,
    community: real,
    total: real)

  // --------------------------------------------------------------- mining

  /** The mining rate the report applies: 0.7%. */
  const MiningRate: real := 0.007

  /** A node's mining reward: its value times the mining rate. */
  function Mined(node: OrgNode, rate: real): real {
    node.value * rate
  }

  /** `miningRewardsMap` once the first nodes are entered: each node's id
      maps to its mining reward, a later node overwriting an earlier one with
      the same id. */
  function MiningMap(all: seq<OrgNode>, rate: real): (m: map<string, real>)
    ensures forall i :: 0 <= i < |all| ==> all[i].id in m
  {
    if all == [] then map[]
    else
      var n := |all| - 1;
      MiningMap(all[..n], rate)[all[n].id := Mined(all[n], rate)]
  }

  /** With distinct ids, a node's entry is its own value times the mining
      rate, whatever the other nodes hold. */
  lemma {:induction false} MiningOf(all: seq<OrgNode>, rate: real, i: nat)
    requires DistinctIds(all) && i < |all|
    ensures MiningMap(all, rate)[all[i].id] == rate * all[i].value
  {
    var n := |all| - 1;
    if i < n {
      assert DistinctIds(all[..n]);
      MiningOf(all[..n], rate, i);
    }
  }

  lemma MiningMapStep(all: seq<OrgNode>, rate: real, x: OrgNode)
    ensures MiningMap(all + [x], rate) == MiningMap(all, rate)[x.id := Mined(x, rate)]
  {
    assert (all + [x])[..|all|] == all;
  }

  /** The `forEach` that fills `miningRewardsMap`. */
  method BuildMiningMap(all: seq<OrgNode>, rate: real) returns (m: map<string, real>)
    ensures m == MiningMap(all, rate)
  {
    m := map[];
    for i := 0 to |all|
      invariant m == MiningMap(all[..i], rate)
    {
      assert all[..i + 1] == all[..i] + [all[i]];
      MiningMapStep(all[..i], rate, all[i]);
      m := m[all[i].id := Mined(all[i], rate)];
    }
    assert all[..|all|] == all;
  }

  // ------------------------------------------------------------- referral

  /** The text a recommender field and a name are compared by: empty for a
      blank field, otherwise free of capital letters and of whitespace at
      either end. */
  function Normal(s: string): (r: string)
    ensures r == [] <==> IsBlank(s)
    ensures forall i :: 0 <= i < |r| ==> !('A' <= r[i] <= 'Z')
    ensures r != [] ==> !IsSpace(r[0]) && !IsSpace(r[|r| - 1])
  {
    Lower(Trim(s))
  }

  /** A text already in normal form compares as itself. */
  lemma NormalIdempotent(s: string)
    ensures Normal(Normal(s)) == Normal(s)
  {
    var r := Normal(s);
    if r != [] {
      assert TrimStart(r) == r;
      assert TrimEnd(r) == r;
    }
    assert Lower(r) == r;
  }

  /** `b` names `a` as its recommender, and is not `a` itself. */
  predicate Recruits(a: OrgNode, b: OrgNode) {
    Normal(b.employeeId) == Normal(a.name) && b.id != a.id
  }

  function IsRecruitOf(a: OrgNode): OrgNode -> bool {
    b => Recruits(a, b)
  }

  /** The recruits of `a`, in list order. */
  function RecruitsOf(all: seq<OrgNode>, a: OrgNode): (r: seq<OrgNode>)
    ensures forall i :: 0 <= i < |r| ==> r[i] in all && Recruits(a, r[i]) && r[i].id != a.id
    ensures forall i :: 0 <= i < |all| && Recruits(a, all[i]) ==> all[i] in r
  {
    Filter(all, IsRecruitOf(a))
  }

  /** `miningRewardsMap[id] || 0`. */
  function MiningOrZero(mining: map<string, real>, id: string): real {
    if id in mining then mining[id] else 0.0
  }

  /** The `referralBaseSum` after the first recruits. */
  function ReferralBase(recruits: seq<OrgNode>, mining: map<string, real>): real {
    if recruits == [] then 0.0
    else
      var n := |recruits| - 1;
      ReferralBase(recruits[..n], mining) + MiningOrZero(mining, recruits[n].id)
  }

  /** `k` times `x`. Closed forms and scaling laws state their products through
      it, so that a product is compared by its factors. */
  function Scale(k: real, x: real): real {
    k * x
  }

  /** The sum of the values of a list of nodes. */
  function ValueTotal(s: seq<OrgNode>): real {
    if s == [] then 0.0 else ValueTotal(s[..|s| - 1]) + s[|s| - 1].value
  }

  /** With distinct ids, the referral base is the mining rate times the recruits'
      total value. */
  lemma {:induction false} ReferralBaseClosedForm(recruits: seq<OrgNode>, all: seq<OrgNode>, rate: real)
    requires DistinctIds(all)
    requires forall i :: 0 <= i < |recruits| ==> recruits[i] in all
    ensures ReferralBase(recruits, MiningMap(all, rate)) == Scale(rate, ValueTotal(recruits))
  {
    if recruits != [] {
      var n := |recruits| - 1;
      ReferralBaseClosedForm(recruits[..n], all, rate);
      var j :| 0 <= j < |all| && all[j] == recruits[n];
      MiningOf(all, rate, j);
      ScaleAdd(rate, ValueTotal(recruits[..n]), recruits[n].value);
    }
  }

  lemma ScaleAdd(k: real, x: real, y: real)
    ensures Scale(k, x + y) == Scale(k, x) + k * y
  {
  }

  // ------------------------------------------------------------------ rows

  /** The metrics entry of an id, or level 0 and no rank for an id the
      traversal never reached. */
  function MetricOf(table: map<string, Entry>, id: string): (e: Entry)
    ensures id !in table ==> e == Entry(0, NoMetrics)
  {
    if id in table then table[id] else Entry(0, NoMetrics)
  }

  /** The row formulas: the referral reward is a tenth of the referral base,
      the community reward the children total times the mining rate, a tenth and
      the rank number, and the total their sum with the mining reward. */
  function RowOf(current: OrgNode, metric: Entry, miningReward: real, referralBase: real, rate: real)
    : (row: ReportRow)
  {
    var referralReward := referralBase * 0.1;
    var communityReward := metric.metrics.childrenSum * rate * 0.1 * (metric.metrics.rank as real);
    ReportRow(current.id, current.employeeId, current.name, metric.level, metric.metrics.rank,
              miningReward, referralReward, communityReward,
              miningReward + referralReward + communityReward)
  }

  /** The report row of `current`. */
  function Row(all: seq<OrgNode>, table: map<string, Entry>, mining: map<string, real>, rate: real,
               current: OrgNode): (row: ReportRow)
    requires current.id in mining
  {
    RowOf(current, MetricOf(table, current.id), mining[current.id],
          ReferralBase(RecruitsOf(all, current), mining), rate)
  }

  /** One row's computation. */
  method ComputeRow(all: seq<OrgNode>, table: map<string, Entry>, mining: map<string, real>, rate: real,
                    current: OrgNode) returns (row: ReportRow)
    requires current.id in mining
    ensures row == Row(all, table, mining, rate, current)
  {
    var metric := MetricOf(table, current.id);
    var miningReward := mining[current.id];
    var myRecruits := RecruitsOf(all, current);
    var referralBaseSum := SumReferralBase(myRecruits, mining);
    row := RowOf(current, metric, miningReward, referralBaseSum, rate);
  }

  /** The loop that sums the recruits' mining rewards, a missing one as 0. */
  method SumReferralBase(recruits: seq<OrgNode>, mining: map<string, real>) returns (sum: real)
    ensures sum == ReferralBase(recruits, mining)
  {
    sum := 0.0;
    for i := 0 to |recruits|
      invariant sum == ReferralBase(recruits[..i], mining)
    {
      assert recruits[..i + 1][..i] == recruits[..i];
      sum := sum + MiningOrZero(mining, recruits[i].id);
    }
    assert recruits[..|recruits|] == recruits;
  }

  /** The community reward is a tenth of the rate times the children total
      per rank step (0.07% at the report's rate) and nothing without a rank;
      the total adds up the three rewards. */
  lemma CommunityClosedForm(current: OrgNode, metric: Entry, miningReward: real, referralBase: real, rate: real)
    ensures var row := RowOf(current, metric, miningReward, referralBase, rate);
      && row.community == rate * 0.1 * metric.metrics.childrenSum * (metric.metrics.rank as real)
      && (metric.metrics.rank == 0 <==> row.rank == 0)
      && (metric.metrics.rank == 0 ==> row.community == 0.0)
      && row.total == row.mining + row.referral + row.community
  {
    if metric.metrics.rank == 0 {
      assert (metric.metrics.rank as real) == 0.0;
    }
  }

  /** A member nobody names as recommender earns no referral reward. */
  lemma NoRecruitsNoReferral(all: seq<OrgNode>, table: map<string, Entry>, mining: map<string, real>,
                             rate: real, current: OrgNode)
    requires current.id in mining && RecruitsOf(all, current) == []
    ensures Row(all, table, mining, rate, current).referral == 0.0
  {
    assert ReferralBase(RecruitsOf(all, current), mining) == 0.0;
  }

  /** What a row pays, in closed form: the rate times the member's own value
      as mining and a tenth of the rate times the recruits' total value as
      referral (0.7% and 0.07% at the report's rate). */
  lemma RowClosedForm(all: seq<OrgNode>, table: map<string, Entry>, rate: real, c: nat)
    requires DistinctIds(all) && c < |all|
    ensures var row := Row(all, table, MiningMap(all, rate), rate, all[c]);
      row.mining == rate * all[c].value
    ensures var row := Row(all, table, MiningMap(all, rate), rate, all[c]);
      row.referral == 0.1 * Scale(rate, ValueTotal(RecruitsOf(all, all[c])))
  {
    MiningOf(all, rate, c);
    ReferralBaseClosedForm(RecruitsOf(all, all[c]), all, rate);
  }

  /** Scaling the rate scales every mining entry by the same factor. */
  lemma {:induction false} MiningMapScaled(all: seq<OrgNode>, rate: real, k: real)
    ensures MiningMap(all, k * rate).Keys == MiningMap(all, rate).Keys
    ensures forall id :: id in MiningMap(all, rate) ==>
      MiningMap(all, k * rate)[id] == Scale(k, MiningMap(all, rate)[id])
  {
    if all != [] {
      var n := |all| - 1;
      MiningMapScaled(all[..n], rate, k);
      assert Mined(all[n], k * rate) == Scale(k, Mined(all[n], rate)) by {
        assert all[n].value * (k * rate) == k * (all[n].value * rate);
      }
    }
  }

  /** The referral base is linear in the mining entries. */
  lemma {:induction false} ReferralBaseScaled(recruits: seq<OrgNode>, mining: map<string, real>,
                                              scaled: map<string, real>, k: real)
    requires scaled.Keys == mining.Keys
    requires forall id :: id in mining ==> scaled[id] == Scale(k, mining[id])
    ensures ReferralBase(recruits, scaled) == Scale(k, ReferralBase(recruits, mining))
  {
    if recruits != [] {
      var n := |recruits| - 1;
      ReferralBaseScaled(recruits[..n], mining, scaled, k);
      assert MiningOrZero(scaled, recruits[n].id) == Scale(k, MiningOrZero(mining, recruits[n].id));
    }
  }

  /** Scaling the mining reward, the referral base and the rate of one row
      by `k` scales its three rewards and its total by `k` and changes nothing
      else in it. */
  lemma RowOfScaled(current: OrgNode, metric: Entry, miningReward: real, referralBase: real,
                    rate: real, k: real)
    ensures var row := RowOf(current, metric, miningReward, referralBase, rate);
      var row' := RowOf(current, metric, Scale(k, miningReward), Scale(k, referralBase), k * rate);
      && row'.mining == Scale(k, row.mining)
      && row'.referral == Scale(k, row.referral)
      && row'.community == Scale(k, row.community)
      && row'.total == Scale(k, row.total)
      && row'.(mining := row.mining, referral := row.referral, community := row.community, total := row.total) == row
  {
    var sum := metric.metrics.childrenSum;
    var rank := metric.metrics.rank as real;
    assert sum * (k * rate) * 0.1 * rank == k * (sum * rate * 0.1 * rank) by {
      assert sum * (k * rate) == k * (sum * rate);
    }
  }

  /** Running the report at `k` times a rate scales the three rewards and the
      total of every row by `k`, and changes nothing else in it. */
  lemma RowScaled(all: seq<OrgNode>, table: map<string, Entry>, rate: real, k: real, rate': real, c: nat)
    requires rate' == k * rate && c < |all|
    ensures var row := Row(all, table, MiningMap(all, rate), rate, all[c]);
      var row' := Row(all, table, MiningMap(all, rate'), rate', all[c]);
      && row'.mining == Scale(k, row.mining)
      && row'.referral == Scale(k, row.referral)
      && row'.community == Scale(k, row.community)
      && row'.total == Scale(k, row.total)
      && row'.(mining := row.mining, referral := row.referral, community := row.community, total := row.total) == row
  {
    var mining := MiningMap(all, rate);
    var scaled := MiningMap(all, rate');
    MiningMapScaled(all, rate, k);
    var recruits := RecruitsOf(all, all[c]);
    var base := ReferralBase(recruits, mining);
    ReferralBaseScaled(recruits, mining, scaled, k);
    var metric := MetricOf(table, all[c].id);
    RowOfScaled(all[c], metric, mining[all[c].id], base, rate, k);
    assert Row(all, table, scaled, rate', all[c])
        == RowOf(all[c], metric, Scale(k, mining[all[c].id]), Scale(k, base), k * rate);
  }

  /** The report's rewards are linear in the rate: at any rate, a row's
      mining, referral, community and total are `rate / MiningRate` times
      those at the report's rate, with the same level and rank. */
  lemma RateScaling(all: seq<OrgNode>, table: map<string, Entry>, rate: real, c: nat)
    requires c < |all|
    ensures var row := Row(all, table, MiningMap(all, MiningRate), MiningRate, all[c]);
      var row' := Row(all, table, MiningMap(all, rate), rate, all[c]);
      && row'.mining == Scale(rate / MiningRate, row.mining)
      && row'.referral == Scale(rate / MiningRate, row.referral)
      && row'.community == Scale(rate / MiningRate, row.community)
      && row'.total == Scale(rate / MiningRate, row.total)
      && row'.level == row.level && row'.rank == row.rank
  {
    RowScaled(all, table, MiningRate, rate / MiningRate, rate, c);
  }

  /** The rows before sorting, one per node in list order. */
  function Rows(all: seq<OrgNode>, table: map<string, Entry>, mining: map<string, real>, rate: real)
    : (rows: seq<ReportRow>)
    requires forall i :: 0 <= i < |all| ==> all[i].id in mining
    ensures |rows| == |all|
    ensures forall i :: 0 <= i < |all| ==> rows[i] == Row(all, table, mining, rate, all[i])
  {
    seq(|all|, i requires 0 <= i < |all| => Row(all, table, mining, rate, all[i]))
  }

  // --------------------------------------------------------------- sorting

  predicate SortedByLevel(rows: seq<ReportRow>) {
    forall i, j :: 0 <= i < j < |rows| ==> rows[i].level <= rows[j].level
  }

  function AtLevel(level: nat): ReportRow -> bool {
    (row: ReportRow) => row.level == level
  }

  /** Places `x` after every row of lower level and before the first row of
      its own level or above. */
  function Insert(x: ReportRow, s: seq<ReportRow>): seq<ReportRow> {
    if s == [] || x.level <= s[0].level then [x] + s
    else [s[0]] + Insert(x, s[1..])
  }

  /** `rows.sort((a, b) => a.level - b.level)`, a stable sort. */
  function SortByLevel(rows: seq<ReportRow>): seq<ReportRow> {
    if rows == [] then [] else Insert(rows[0], SortByLevel(rows[1..]))
  }

  /** Every row of `s` has level at least `b`. */
  predicate LevelsFrom(s: seq<ReportRow>, b: nat) {
    forall i :: 0 <= i < |s| ==> b <= s[i].level
  }

  lemma {:induction false} InsertLevelsFrom(x: ReportRow, s: seq<ReportRow>, b: nat)
    requires LevelsFrom(s, b) && b <= x.level
    ensures LevelsFrom(Insert(x, s), b)
  {
    if s != [] && x.level > s[0].level {
      InsertLevelsFrom(x, s[1..], b);
    }
  }

  lemma {:induction false} InsertPermutes(x: ReportRow, s: seq<ReportRow>)
    ensures multiset(Insert(x, s)) == multiset{x} + multiset(s)
  {
    if s != [] && x.level > s[0].level {
      InsertPermutes(x, s[1..]);
      assert s == [s[0]] + s[1..];
    }
  }

  lemma {:induction false} InsertSorted(x: ReportRow, s: seq<ReportRow>)
    requires SortedByLevel(s)
    ensures SortedByLevel(Insert(x, s))
    ensures multiset(Insert(x, s)) == multiset{x} + multiset(s)
  {
    InsertPermutes(x, s);
    if s != [] && x.level > s[0].level {
      InsertSorted(x, s[1..]);
      var t := Insert(x, s[1..]);
      assert LevelsFrom(t, s[0].level) by {
        InsertLevelsFrom(x, s[1..], s[0].level);
      }
      assert Insert(x, s) == [s[0]] + t;
    }
  }

  lemma {:induction false} InsertStable(x: ReportRow, s: seq<ReportRow>, level: nat)
    requires SortedByLevel(s)
    ensures Filter(Insert(x, s), AtLevel(level))
         == (if x.level == level then [x] else []) + Filter(s, AtLevel(level))
  {
    if s == [] || x.level <= s[0].level {
      assert ([x] + s)[1..] == s;
    } else {
      InsertStable(x, s[1..], level);
      var t := Insert(x, s[1..]);
      assert ([s[0]] + t)[1..] == t;
    }
  }

  /** The sort puts the rows in non-decreasing level order, keeps exactly the
      same rows, and keeps the rows of each level in their input order. */
  lemma {:induction false} SortByLevelFacts(rows: seq<ReportRow>)
    ensures SortedByLevel(SortByLevel(rows))
    ensures multiset(SortByLevel(rows)) == multiset(rows)
    ensures forall level :: Filter(SortByLevel(rows), AtLevel(level)) == Filter(rows, AtLevel(level))
  {
    if rows != [] {
      SortByLevelFacts(rows[1..]);
      InsertSorted(rows[0], SortByLevel(rows[1..]));
      forall level ensures Filter(SortByLevel(rows), AtLevel(level)) == Filter(rows, AtLevel(level)) {
        InsertStable(rows[0], SortByLevel(rows[1..]), level);
      }
      assert rows == [rows[0]] + rows[1..];
    }
  }

  // ----------------------------------------------------------------- total

  /** `totalSummary`: the row totals summed from the left. */
  function GrandTotal(rows: seq<ReportRow>): real {
    if rows == [] then 0.0 else GrandTotal(rows[..|rows| - 1]) + rows[|rows| - 1].total
  }

  lemma {:induction false} GrandTotalAppend(a: seq<ReportRow>, b: seq<ReportRow>)
    ensures GrandTotal(a + b) == GrandTotal(a) + GrandTotal(b)
    decreases |b|
  {
    if b != [] {
      var n := |b| - 1;
      var ab := a + b;
      assert ab[..|ab| - 1] == a + b[..n];
      assert ab[|ab| - 1] == b[n];
      GrandTotalAppend(a, b[..n]);
      assert GrandTotal(ab) == GrandTotal(a + b[..n]) + b[n].total;
    } else {
      assert a + b == a;
    }
  }

  /** Sorting does not change the grand total. */
  lemma {:induction false} GrandTotalSorted(rows: seq<ReportRow>)
    ensures GrandTotal(SortByLevel(rows)) == GrandTotal(rows)
  {
    if rows != [] {
      GrandTotalSorted(rows[1..]);
      InsertTotal(rows[0], SortByLevel(rows[1..]));
      assert rows == [rows[0]] + rows[1..];
      GrandTotalAppend([rows[0]], rows[1..]);
    }
  }

  lemma {:induction false} InsertTotal(x: ReportRow, s: seq<ReportRow>)
    ensures GrandTotal(Insert(x, s)) == x.total + GrandTotal(s)
  {
    GrandTotalAppend([x], s);
    assert GrandTotal([x]) == x.total by {
      assert [x][..0] == [];
    }
    if s != [] && x.level > s[0].level {
      InsertTotal(x, s[1..]);
      GrandTotalAppend([s[0]], Insert(x, s[1..]));
      GrandTotalAppend([s[0]], s[1..]);
      assert GrandTotal([s[0]]) == s[0].total by {
        assert [s[0]][..0] == [];
      }
      assert s == [s[0]] + s[1..];
    }
  }

  // ---------------------------------------------------------------- report

  /** The rows of all nodes in key order, before the sort. */
  ghost function Unsorted(nodes: NodeMap, order: seq<string>, rootNodeId: string, rate: real): (rows: seq<ReportRow>)
    requires Acyclic(nodes) && Lists(nodes, order)
    ensures |rows| == |order|
  {
    var all := Values(nodes, order);
    Rows(all, LevelTable(nodes, rootNodeId), MiningMap(all, rate), rate)
  }

  /** The report: the rows of all nodes, sorted by level. */
  ghost function Report(nodes: NodeMap, order: seq<string>, rootNodeId: string, rate: real): seq<ReportRow>
    requires Acyclic(nodes) && Lists(nodes, order)
  {
    SortByLevel(Unsorted(nodes, order, rootNodeId, rate))
  }

  /** The `map` over all nodes: one row each, in list order. */
  method BuildRows(all: seq<OrgNode>, table: map<string, Entry>, mining: map<string, real>, rate: real)
    returns (rows: seq<ReportRow>)
    requires forall i :: 0 <= i < |all| ==> all[i].id in mining
    ensures rows == Rows(all, table, mining, rate)
  {
    ghost var expected := Rows(all, table, mining, rate);
    rows := [];
    for i := 0 to |all|
      invariant rows == expected[..i]
    {
      var row := ComputeRow(all, table, mining, rate, all[i]);
      PrefixStep(expected, i);
      rows := rows + [row];
    }
    assert expected[..|all|] == expected;
  }

  /** `reportData`: the level table, the mining map, one row per node, and
      the sort, at the report's rate. */
  method ReportData(nodes: NodeMap, order: seq<string>, rootNodeId: string)
    returns (rows: seq<ReportRow>)
    requires Acyclic(nodes) && Lists(nodes, order)
    ensures rows == Report(nodes, order, rootNodeId, MiningRate)
  {
    var table := ComputeTable(nodes, rootNodeId);
    var all := Values(nodes, order);
    var mining := BuildMiningMap(all, MiningRate);
    var unsorted := BuildRows(all, table, mining, MiningRate);
    rows := SortByLevel(unsorted);
  }

  /** `totalSummary` over the report. */
  method TotalSummary(rows: seq<ReportRow>) returns (sum: real)
    ensures sum == GrandTotal(rows)
  {
    sum := 0.0;
    for i := 0 to |rows|
      invariant sum == GrandTotal(rows[..i])
    {
      assert rows[..i + 1][..i] == rows[..i];
      sum := sum + rows[i].total;
    }
    assert rows[..|rows|] == rows;
  }

  /** The report holds each node's row exactly once, in non-decreasing level
      order, with the rows of one level kept in key order, and its grand total
      is that of the rows in key order. */
  lemma ReportOrder(nodes: NodeMap, order: seq<string>, rootNodeId: string, rate: real)
    requires Acyclic(nodes) && Lists(nodes, order)
    ensures var unsorted := Unsorted(nodes, order, rootNodeId, rate);
      var report := Report(nodes, order, rootNodeId, rate);
      && SortedByLevel(report)
      && multiset(report) == multiset(unsorted)
      && (forall level :: Filter(report, AtLevel(level)) == Filter(unsorted, AtLevel(level)))
      && GrandTotal(report) == GrandTotal(unsorted)
  {
    var unsorted := Unsorted(nodes, order, rootNodeId, rate);
    SortByLevelFacts(unsorted);
    GrandTotalSorted(unsorted);
  }

  /** The row at key position `i` is the row of the node under `order[i]`. A
      node the traversal did not reach shows level 0, no rank and no community
      reward; a reached node shows its recorded level and its own rank. */
  lemma RowOfNode(nodes: NodeMap, order: seq<string>, rootNodeId: string, rate: real, i: nat)
    requires Acyclic(nodes) && Lists(nodes, order) && IdsMatch(nodes) && i < |order|
    ensures var row := Unsorted(nodes, order, rootNodeId, rate)[i];
      var table := LevelTable(nodes, rootNodeId);
      && row.id == order[i]
      && row.name == nodes[order[i]].name
      && row.recommender == nodes[order[i]].employeeId
      && (order[i] in table <==> rootNodeId != "" && order[i] in Reach(nodes, rootNodeId))
      && (order[i] !in table ==> row.level == 0 && row.rank == 0 && row.community == 0.0)
      && (order[i] in table ==> row.level == table[order[i]].level
                                && row.rank == Compute(nodes, order[i]).rank)
  {
    var all := Values(nodes, order);
    var table := LevelTable(nodes, rootNodeId);
    var mining := MiningMap(all, rate);
    LevelTableFacts(nodes, rootNodeId);
    var row := Row(all, table, mining, rate, all[i]);
    assert Unsorted(nodes, order, rootNodeId, rate)[i] == row;
    CommunityClosedForm(all[i], MetricOf(table, all[i].id), mining[all[i].id],
                        ReferralBase(RecruitsOf(all, all[i]), mining), rate);
  }
}
