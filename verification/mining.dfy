/** The association-rule operation: group the request rows into
    transactions, mine them with the external apriori library, rank the rules
    by lift and format them as response rows. */
module Mining {
  import opened Wrappers
  import opened Text
  import opened Data
  import opened Seqs
  import opened Tables
  import opened Params
  import opened Describe

  /** The request columns of the operation, before the `kwargs` column is dropped. */
  const AprioriColumns: seq<string> := ["group", "item", "kwargs"]

  /** Rows of the request once `kwargs` is dropped: a group and an item each. */
  predicate GroupItemRows(rows: seq<seq<string>>) {
    forall i :: 0 <= i < |rows| ==> |rows[i]| == 2
  }

  /** The group column. */
  function GroupsOf(rows: seq<seq<string>>): (gs: seq<string>)
    requires GroupItemRows(rows)
    ensures |gs| == |rows|
    ensures forall i :: 0 <= i < |rows| ==> gs[i] == rows[i][0]
  {
    seq(|rows|, i requires 0 <= i < |rows| => rows[i][0])
  }

  /** The distinct values of `xs`, each kept where it first occurs
      (`Series.unique`). */
  function Distinct(xs: seq<string>): (d: seq<string>)
    ensures forall x :: x in d <==> x in xs
    ensures NoDuplicates(d)
    decreases |xs|
  {
    if |xs| == 0 then []
    else
      var d := Distinct(xs[..|xs| - 1]);
      assert forall x :: x in xs <==> x in xs[..|xs| - 1] || x == xs[|xs| - 1] by {
        assert xs == xs[..|xs| - 1] + [xs[|xs| - 1]];
      }
      if xs[|xs| - 1] in d then d else d + [xs[|xs| - 1]]
  }

  /** The position of the first occurrence of `x` in `xs`. */
  function FirstIndex(xs: seq<string>, x: string): (k: nat)
    requires x in xs
    ensures k < |xs| && xs[k] == x && x !in xs[..k]
  {
    if xs[0] == x then 0
    else
      assert xs == [xs[0]] + xs[1..];
      var k := FirstIndex(xs[1..], x);
      assert xs[..k + 1] == [xs[0]] + xs[1..][..k];
      k + 1
  }

  /** An occurrence in a prefix is the occurrence in the whole sequence. */
  lemma FirstIndexPrefix(xs: seq<string>, n: nat, x: string)
    requires n <= |xs| && x in xs[..n]
    ensures FirstIndex(xs, x) == FirstIndex(xs[..n], x)
  {
    var k := FirstIndex(xs[..n], x);
    var m := FirstIndex(xs, x);
    assert forall j :: 0 <= j < m ==> xs[j] != x by {
      assert forall j :: 0 <= j < m ==> xs[..m][j] == xs[j];
    }
    assert forall j :: 0 <= j < k ==> xs[j] != x by {
      assert forall j :: 0 <= j < k ==> xs[..n][..k][j] == xs[j];
    }
    assert xs[k] == xs[..n][k];
  }

  /** The values of `d`, all occurring in `xs`, come in order of their first
      occurrence in `xs`. */
  predicate FirstSeenOrdered(xs: seq<string>, d: seq<string>)
    requires forall x :: x in d ==> x in xs
  {
    forall i, j :: 0 <= i < j < |d| ==> FirstIndex(xs, d[i]) < FirstIndex(xs, d[j])
  }

  /** The distinct values come in order of first appearance. */
  lemma {:induction false} DistinctFirstSeenOrder(xs: seq<string>)
    ensures FirstSeenOrdered(xs, Distinct(xs))
    decreases |xs|
  {
    if |xs| > 0 {
      var n := |xs| - 1;
      DistinctFirstSeenOrder(xs[..n]);
      if xs[n] in Distinct(xs[..n]) {
        FirstSeenKnownValue(xs);
      } else {
        FirstSeenNewValue(xs);
      }
    }
  }

  /** A value already seen leaves the distinct values and their order as they
      were. */
  lemma FirstSeenKnownValue(xs: seq<string>)
    requires |xs| > 0 && xs[|xs| - 1] in Distinct(xs[..|xs| - 1])
    requires FirstSeenOrdered(xs[..|xs| - 1], Distinct(xs[..|xs| - 1]))
    ensures FirstSeenOrdered(xs, Distinct(xs))
  {
    var n := |xs| - 1;
    var d0 := Distinct(xs[..n]);
    assert Distinct(xs) == d0;
    FirstSeenExtend(xs, n, d0);
  }

  /** Values ordered by first occurrence in a prefix are ordered by first
      occurrence in the whole sequence. */
  lemma FirstSeenExtend(xs: seq<string>, n: nat, d: seq<string>)
    requires n <= |xs|
    requires forall x :: x in d ==> x in xs[..n]
    requires FirstSeenOrdered(xs[..n], d)
    ensures forall x :: x in d ==> x in xs && FirstIndex(xs, x) < n
    ensures FirstSeenOrdered(xs, d)
  {
    forall x | x in d ensures x in xs && FirstIndex(xs, x) == FirstIndex(xs[..n], x) {
      FirstIndexPrefix(xs, n, x);
    }
    forall i, j | 0 <= i < j < |d| ensures FirstIndex(xs, d[i]) < FirstIndex(xs, d[j]) {
      FirstIndexPrefix(xs, n, d[i]);
      FirstIndexPrefix(xs, n, d[j]);
    }
  }

  /** A value not seen before is appended, after every value seen before. */
  lemma FirstSeenNewValue(xs: seq<string>)
    requires |xs| > 0 && xs[|xs| - 1] !in Distinct(xs[..|xs| - 1])
    requires FirstSeenOrdered(xs[..|xs| - 1], Distinct(xs[..|xs| - 1]))
    ensures FirstSeenOrdered(xs, Distinct(xs))
  {
    var n := |xs| - 1;
    var d0 := Distinct(xs[..n]);
    FirstSeenExtend(xs, n, d0);
    assert FirstIndex(xs, xs[n]) == n by {
      assert xs[n] !in xs[..n];
    }
    FirstSeenAppend(xs, d0, xs[n]);
  }

  /** Appending a value seen after all of `d` keeps the order. */
  lemma FirstSeenAppend(xs: seq<string>, d: seq<string>, x: string)
    requires x in xs && forall y :: y in d ==> y in xs && FirstIndex(xs, y) < FirstIndex(xs, x)
    requires FirstSeenOrdered(xs, d)
    ensures FirstSeenOrdered(xs, d + [x])
  {
    var e := d + [x];
    forall i, j | 0 <= i < j < |e| ensures FirstIndex(xs, e[i]) < FirstIndex(xs, e[j]) {
      assert e[i] == d[i];
      if j < |d| {
        assert e[j] == d[j];
      }
    }
  }

  /** The items of the rows of group `g`, in row order. */
  function ItemsOf(rows: seq<seq<string>>, g: string): seq<string>
    requires GroupItemRows(rows)
    decreases |rows|
  {
    if |rows| == 0 then []
    else ItemsOf(rows[..|rows| - 1], g) + (if rows[|rows| - 1][0] == g then [rows[|rows| - 1][1]] else [])
  }

  /** A row added at the end adds its item to its own group only. */
  lemma ItemsOfSnoc(p: seq<seq<string>>, r: seq<string>, g: string)
    requires GroupItemRows(p) && |r| == 2
    ensures GroupItemRows(p + [r])
    ensures ItemsOf(p + [r], g) == ItemsOf(p, g) + (if r[0] == g then [r[1]] else [])
  {
    assert (p + [r])[..|p|] == p;
  }

  /** The transaction of group `g` holds one item per row of `g`. */
  lemma {:induction false} ItemsOfCount(rows: seq<seq<string>>, g: string)
    requires GroupItemRows(rows)
    ensures |ItemsOf(rows, g)| == multiset(GroupsOf(rows))[g]
    decreases |rows|
  {
    if |rows| > 0 {
      var n := |rows| - 1;
      var p := rows[..n];
      ItemsOfCount(p, g);
      assert rows == p + [rows[n]];
      ItemsOfSnoc(p, rows[n], g);
      GroupsOfSnoc(p, rows[n]);
    }
  }

  /** The items of group `g`'s transaction are exactly the items of the rows
      of `g`. */
  lemma {:induction false} ItemsOfMembers(rows: seq<seq<string>>, g: string)
    requires GroupItemRows(rows)
    ensures forall x :: x in ItemsOf(rows, g) <==> exists i :: 0 <= i < |rows| && rows[i][0] == g && rows[i][1] == x
    decreases |rows|
  {
    if |rows| > 0 {
      var n := |rows| - 1;
      var p := rows[..n];
      ItemsOfMembers(p, g);
      assert rows == p + [rows[n]];
      ItemsOfSnoc(p, rows[n], g);
      assert forall i :: 0 <= i < n ==> p[i] == rows[i];
    }
  }

  /** One transaction per group in `groups`, holding that group's items. */
  function Groupwise(groups: seq<string>, rows: seq<seq<string>>): (ts: seq<seq<string>>)
    requires GroupItemRows(rows)
    ensures |ts| == |groups|
    ensures forall i :: 0 <= i < |groups| ==> ts[i] == ItemsOf(rows, groups[i])
    decreases |groups|
  {
    if |groups| == 0 then []
    else [ItemsOf(rows, groups[0])] + Groupwise(groups[1..], rows)
  }

  /** The transactions handed to the miner: one per distinct group, in order
      of first appearance, each with the group's items in row order. */
  function Transactions(rows: seq<seq<string>>): (ts: seq<seq<string>>)
    requires GroupItemRows(rows)
    ensures |ts| == |Distinct(GroupsOf(rows))|
    ensures forall i :: 0 <= i < |ts| ==> |ts[i]| > 0
  {
    var groups := Distinct(GroupsOf(rows));
    assert forall i :: 0 <= i < |groups| ==> |ItemsOf(rows, groups[i])| > 0 by {
      forall i | 0 <= i < |groups| ensures |ItemsOf(rows, groups[i])| > 0 {
        ItemsOfCount(rows, groups[i]);
        assert groups[i] in groups;
        assert groups[i] in GroupsOf(rows);
        assert groups[i] in multiset(GroupsOf(rows));
      }
    }
    Groupwise(groups, rows)
  }

  function SumSizes(ts: seq<seq<string>>): nat {
    if |ts| == 0 then 0 else |ts[0]| + SumSizes(ts[1..])
  }

  lemma {:induction false} SumSizesAppend(ts: seq<seq<string>>, t: seq<string>)
    ensures SumSizes(ts + [t]) == SumSizes(ts) + |t|
    decreases |ts|
  {
    if |ts| > 0 {
      assert (ts + [t])[1..] == ts[1..] + [t];
      SumSizesAppend(ts[1..], t);
    }
  }

  /** Adding a row adds one item to the transaction of the row's group and to
      no other. */
  lemma {:induction false} GroupwiseAddRow(groups: seq<string>, rows: seq<seq<string>>, r: seq<string>)
    requires GroupItemRows(rows) && |r| == 2 && NoDuplicates(groups)
    ensures GroupItemRows(rows + [r])
    ensures SumSizes(Groupwise(groups, rows + [r])) == SumSizes(Groupwise(groups, rows)) + (if r[0] in groups then 1 else 0)
    decreases |groups|
  {
    ItemsOfSnoc(rows, r, "");
    if |groups| > 0 {
      GroupwiseAddRow(groups[1..], rows, r);
      ItemsOfSnoc(rows, r, groups[0]);
      assert r[0] in groups <==> r[0] == groups[0] || r[0] in groups[1..] by {
        assert groups == [groups[0]] + groups[1..];
      }
      if r[0] == groups[0] {
        assert r[0] !in groups[1..];
      }
    }
  }

  /** Every request row lands in exactly one transaction: the transaction
      sizes add up to the number of rows. */
  lemma {:induction false} TransactionsCoverRows(rows: seq<seq<string>>)
    requires GroupItemRows(rows)
    ensures SumSizes(Transactions(rows)) == |rows|
    decreases |rows|
  {
    if |rows| > 0 {
      var n := |rows| - 1;
      var p := rows[..n];
      assert rows == p + [rows[n]];
      TransactionsCoverRows(p);
      var d0 := Distinct(GroupsOf(p));
      GroupwiseAddRow(d0, p, rows[n]);
      GroupsOfSnoc(p, rows[n]);
      if rows[n][0] !in d0 {
        NewGroupTransaction(p, rows[n]);
      }
    }
  }

  /** A row opening a new group adds a transaction holding just that row. */
  lemma NewGroupTransaction(p: seq<seq<string>>, r: seq<string>)
    requires GroupItemRows(p) && |r| == 2
    requires r[0] !in Distinct(GroupsOf(p))
    ensures GroupItemRows(p + [r])
    ensures SumSizes(Transactions(p + [r])) == SumSizes(Groupwise(Distinct(GroupsOf(p)), p + [r])) + 1
  {
    var rows := p + [r];
    var d0 := Distinct(GroupsOf(p));
    GroupsOfSnoc(p, r);
    assert Distinct(GroupsOf(rows)) == d0 + [r[0]];
    GroupwiseAppend(d0, rows, r[0]);
    SumSizesAppend(Groupwise(d0, rows), ItemsOf(rows, r[0]));
    ItemsOfSnoc(p, r, r[0]);
    ItemsOfCount(p, r[0]);
    assert multiset(GroupsOf(p))[r[0]] == 0;
  }

  /** Appending a row appends its group. */
  lemma GroupsOfSnoc(p: seq<seq<string>>, r: seq<string>)
    requires GroupItemRows(p) && |r| == 2
    ensures GroupItemRows(p + [r])
    ensures GroupsOf(p + [r]) == GroupsOf(p) + [r[0]]
    ensures (p + [r])[..|p|] == p
  {
    assert (p + [r])[..|p|] == p;
  }

  lemma GroupwiseAppend(groups: seq<string>, rows: seq<seq<string>>, g: string)
    requires GroupItemRows(rows)
    ensures Groupwise(groups + [g], rows) == Groupwise(groups, rows) + [ItemsOf(rows, g)]
  {
  }

  /** Lift values never increase along `rules`. */
  predicate LiftNonIncreasing(rules: seq<Rule>) {
    forall i, j :: 0 <= i < j < |rules| ==> rules[i].lift >= rules[j].lift
  }

  /** The rules of lift `v`, in their order in `rules`. */
  function WithLift(rules: seq<Rule>, v: real): seq<Rule> {
    if |rules| == 0 then []
    else (if rules[0].lift == v then [rules[0]] else []) + WithLift(rules[1..], v)
  }

  /** Puts `x` before the first rule whose lift does not exceed its own. */
  function InsertByLift(x: Rule, sorted: seq<Rule>): (r: seq<Rule>)
    ensures |r| == |sorted| + 1
  {
    if |sorted| == 0 then [x]
    else if x.lift >= sorted[0].lift then [x] + sorted
    else [sorted[0]] + InsertByLift(x, sorted[1..])
  }

  /** `sorted(rules, key=lambda rule: rule.lift, reverse=True)`: a stable
      sort by lift, highest first. */
  function RankByLift(rules: seq<Rule>): (ranked: seq<Rule>)
    ensures |ranked| == |rules|
    ensures LiftNonIncreasing(ranked)
  {
    if |rules| == 0 then []
    else
      var rest := RankByLift(rules[1..]);
      InsertByLiftRanked(rules[0], rest);
      InsertByLift(rules[0], rest)
  }

  /** Inserting adds exactly the one rule. */
  lemma {:induction false} InsertByLiftPermutes(x: Rule, s: seq<Rule>)
    ensures multiset(InsertByLift(x, s)) == multiset(s) + multiset{x}
    decreases |s|
  {
    if |s| > 0 && x.lift < s[0].lift {
      InsertByLiftPermutes(x, s[1..]);
      assert s == [s[0]] + s[1..];
    }
  }

  /** Inserting a rule under a lift bound `b` into rules under `b` keeps
      every rule under `b`. */
  lemma {:induction false} InsertByLiftBounded(x: Rule, s: seq<Rule>, b: real)
    requires x.lift <= b
    requires forall i :: 0 <= i < |s| ==> s[i].lift <= b
    ensures forall i :: 0 <= i < |InsertByLift(x, s)| ==> InsertByLift(x, s)[i].lift <= b
    decreases |s|
  {
    if |s| > 0 && x.lift < s[0].lift {
      InsertByLiftBounded(x, s[1..], b);
    }
  }

  /** Inserting into a ranked sequence keeps it ranked. */
  lemma {:induction false} InsertByLiftRanked(x: Rule, s: seq<Rule>)
    requires LiftNonIncreasing(s)
    ensures LiftNonIncreasing(InsertByLift(x, s))
    decreases |s|
  {
    if |s| > 0 && x.lift < s[0].lift {
      var t := InsertByLift(x, s[1..]);
      InsertByLiftRanked(x, s[1..]);
      InsertByLiftBounded(x, s[1..], s[0].lift);
      var u := InsertByLift(x, s);
      assert u == [s[0]] + t;
      forall i, j | 0 <= i < j < |u| ensures u[i].lift >= u[j].lift {
        assert u[j] == t[j - 1];
        if i > 0 {
          assert u[i] == t[i - 1];
        }
      }
    }
  }

  /** Inserting `x` puts it before every rule of the same lift, and moves no
      other rule of that lift. */
  lemma {:induction false} InsertByLiftWithLift(x: Rule, s: seq<Rule>, v: real)
    ensures WithLift(InsertByLift(x, s), v) == (if x.lift == v then [x] else []) + WithLift(s, v)
    decreases |s|
  {
    if |s| == 0 {
      WithLiftCons(x, [], v);
    } else if x.lift >= s[0].lift {
      WithLiftCons(x, s, v);
    } else {
      InsertByLiftWithLift(x, s[1..], v);
      WithLiftCons(s[0], InsertByLift(x, s[1..]), v);
      WithLiftCons(s[0], s[1..], v);
      assert [s[0]] + s[1..] == s;
      assert x.lift == v ==> s[0].lift != v;
    }
  }

  /** The rules of lift `v` in a sequence with a rule `r` in front. */
  lemma WithLiftCons(r: Rule, rest: seq<Rule>, v: real)
    ensures WithLift([r] + rest, v) == (if r.lift == v then [r] else []) + WithLift(rest, v)
  {
    assert ([r] + rest)[1..] == rest;
  }

  /** The ranking reorders the rules and drops or duplicates none. */
  lemma {:induction false} RankIsPermutation(rules: seq<Rule>)
    ensures multiset(RankByLift(rules)) == multiset(rules)
    decreases |rules|
  {
    if |rules| > 0 {
      RankIsPermutation(rules[1..]);
      InsertByLiftPermutes(rules[0], RankByLift(rules[1..]));
      assert rules == [rules[0]] + rules[1..];
    }
  }

  /** The ranking is stable: for every lift value, the rules with that lift
      appear in the order the miner emitted them. */
  lemma {:induction false} RankIsStable(rules: seq<Rule>, v: real)
    ensures WithLift(RankByLift(rules), v) == WithLift(rules, v)
    decreases |rules|
  {
    if |rules| > 0 {
      RankIsStable(rules[1..], v);
      InsertByLiftWithLift(rules[0], RankByLift(rules[1..]), v);
    }
  }

  /** A response row of the rule operation. */
  datatype RuleRow = RuleRow(rule: string, ruleLhs: string, ruleRhs: string, support: real, confidence: real, lift: real)

  /** One side of a rule: its items joined by `", "`. */
  function SideText(items: seq<string>): string {
    Join(", ", items)
  }

  /** The row for one rule: `"lhs -> rhs"`, both sides, and the rule's
      support, confidence and lift. */
  function FormatRule(rule: Rule): (row: RuleRow)
    ensures row.ruleLhs == SideText(rule.lhs) && row.ruleRhs == SideText(rule.rhs)
    ensures row.rule == row.ruleLhs + " -> " + row.ruleRhs
    ensures row.support == rule.support && row.confidence == rule.confidence && row.lift == rule.lift
  {
    var lhs := SideText(rule.lhs);
    var rhs := SideText(rule.rhs);
    RuleRow(lhs + " -> " + rhs, lhs, rhs, rule.support, rule.confidence, rule.lift)
  }

  /** A side can be read back: when no item contains a comma, splitting the
      side text on `,` gives the items, each after the first with the space
      of the separator in front of it. */
  lemma SideTextSplits(items: seq<string>)
    requires |items| >= 1
    requires forall i :: 0 <= i < |items| ==> ',' !in items[i]
    ensures Split(SideText(items), ',') == PrefixRest(" ", items)
  {
    assert ", " == [','] + " ";
    JoinLongSeparator(',', " ", items);
    var q := PrefixRest(" ", items);
    forall i | 0 <= i < |q| ensures ',' !in q[i] {
      if i > 0 {
        assert q[i] == " " + items[i];
      }
    }
    SplitJoin(q, ',');
  }

  function FormatAll(rules: seq<Rule>): (rows: seq<RuleRow>)
    ensures |rows| == |rules|
    ensures forall i :: 0 <= i < |rules| ==> rows[i] == FormatRule(rules[i])
  {
    seq(|rules|, i requires 0 <= i < |rules| => FormatRule(rules[i]))
  }

  datatype RulesResponse = RulesResponse(rows: seq<RuleRow>, description: TableDescription)

  /** The whole operation on a decoded request with the columns
      `group, item, kwargs`. It fails when no rules are mined, never
      answering with an empty table; otherwise the rows are the mined rules,
      highest lift first, and the description announces the rule columns and
      the row count. */
  function AssociationRules<M>(env: Env<M>, t: Table): (r: Result<RulesResponse, Error>)
    requires IsRequestTable(t, AprioriColumns)
    ensures r.Success? ==>
      && |r.value.rows| > 0
      && r.value.description == DescribeTable("apriori", |r.value.rows|)
      && forall i, j :: 0 <= i < j < |r.value.rows| ==> r.value.rows[i].lift >= r.value.rows[j].lift
    ensures Initiate(env, t, AprioriColumns).Success? ==>
      var (p, df) := Initiate(env, t, AprioriColumns).value;
      GroupItemRows(df.rows) &&
      var mined := env.apriori(Transactions(df.rows), p.passOn);
      && (mined.Failure? ==> r == Failure(MiningError(mined.error)))
      && (mined.Success? && |mined.value| == 0 ==> r == Failure(NoRulesFound))
      && (mined.Success? && |mined.value| > 0 ==> r.Success? && r.value.rows == FormatAll(RankByLift(mined.value)))
    ensures Initiate(env, t, AprioriColumns).Failure? ==> r == Failure(Initiate(env, t, AprioriColumns).error)
  {
    var (p, df) :- Initiate(env, t, AprioriColumns);
    DropKwargsLeavesGroupItem(t);
    var rules :- env.apriori(Transactions(df.rows), p.passOn).MapFailure(d => MiningError(d));
    var ranked := RankByLift(rules);
    var rows := FormatAll(ranked);
    if |rows| == 0 then Failure(NoRulesFound)
    else Success(RulesResponse(rows, DescribeTable("apriori", |rows|)))
  }

  /** Dropping `kwargs` from the request leaves the columns `group, item`. */
  lemma DropKwargsLeavesGroupItem(t: Table)
    requires IsRequestTable(t, AprioriColumns)
    ensures DropColumn(t, "kwargs").header == ["group", "item"]
    ensures GroupItemRows(DropColumn(t, "kwargs").rows)
    ensures forall i :: 0 <= i < |t.rows| ==> DropColumn(t, "kwargs").rows[i] == t.rows[i][..2]
  {
    KeepCellsAt(t.header, t.header, "kwargs", 2);
    forall i | 0 <= i < |t.rows| ensures DropColumn(t, "kwargs").rows[i] == t.rows[i][..2] {
      KeepCellsAt(t.header, t.rows[i], "kwargs", 2);
    }
  }
}
