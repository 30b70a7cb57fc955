/** What an acknowledgement lets through: the destructive migrations that it names, and no other. */
module Acknowledged {
  import opened Text
  import opened Characters
  import opened Stripper
  import opened SqlStatements
  import opened Database
  import opened Runner
  import opened RunLaws

  /** One item of the list, with the white space around it; an item may be blank. */
  datatype Item = Item(before: string, name: string, after: string)

  function ItemText(i: Item): (s: string) {
    i.before + i.name + i.after
  }

  function Texts(items: seq<Item>): (ts: seq<string>)
    ensures |ts| == |items|
  {
    seq(|items|, k requires 0 <= k < |items| => ItemText(items[k]))
  }

  /** The value of the variable: the items, separated by commas. */
  function AckOf(items: seq<Item>): (ack: string) {
    if items == [] then "" else Join(Texts(items), ',')
  }

  ghost predicate IsItem(i: Item) {
    White(i.before) && White(i.after) && ',' !in i.name && (i.name == "" || Trimmed(i.name))
  }

  ghost predicate AreItems(items: seq<Item>) {
    forall k :: 0 <= k < |items| ==> IsItem(items[k])
  }

  ghost predicate Lists(items: seq<Item>, name: string) {
    name != "" && exists k :: 0 <= k < |items| && items[k].name == name
  }

  lemma {:induction false} NoCommaInside(i: Item)
    requires IsItem(i)
    ensures ',' !in ItemText(i)
  {
  }

  /** Exactly the listed names are authorised; the empty value authorises none. */
  lemma {:induction false} AuthorisedIff(items: seq<Item>, name: string)
    requires AreItems(items)
    ensures Authorised(name, AckOf(items)) <==> Lists(items, name)
  {
    hide ItemText, IsItem;
    var ack, parts := AckOf(items), Texts(items);
    if items == [] {
      assert Split(ack, ',') == [[]];
      TrimIs("", "", "");
      assert "" + "" + "" == "";
    } else {
      forall k | 0 <= k < |parts|
        ensures ',' !in parts[k] && Trim(parts[k]) == items[k].name
      {
        NoCommaInside(items[k]);
        ItemTrims(items[k]);
      }
      SplitInvertsJoin(parts, ',');
    }
  }

  lemma {:induction false} ItemTrims(i: Item)
    requires IsItem(i)
    ensures Trim(ItemText(i)) == i.name
  {
    TrimIs(i.before, i.name, i.after);
  }

  // ----- what a run does with it

  /** The body says that it is destructive, and nobody acknowledged it by name. */
  ghost predicate Unacknowledged(m: Migration, items: seq<Item>) {
    (exists k: nat :: HasAt(m.sql, k, "SERVANA:DESTRUCTIVE")) && !Lists(items, m.name)
  }

  lemma {:induction false} HeldIffUnacknowledged(m: Migration, items: seq<Item>)
    requires AreItems(items)
    ensures MustHold(m, AckOf(items)) <==> Unacknowledged(m, items)
  {
    hide Authorised, Lists;
    AuthorisedIff(items, m.name);
    MarkerIs(m.sql);
  }

  lemma {:induction false} MarkerIs(sql: string)
    ensures DeclaresDestructive(sql) <==> exists k: nat :: HasAt(sql, k, "SERVANA:DESTRUCTIVE")
  {
    if k: nat :| HasAt(sql, k, "SERVANA:DESTRUCTIVE") {
      assert k <= |sql| && HasAt(sql, k, DESTRUCTIVE_MARKER);
    }
  }

  /**
   * A run, whatever the bodies do and whatever fails: what it applies, reaches or fails on is
   * not destructive or is named; if it ends without a failure, what it holds is the rest of the
   * pending list, which begins with the first destructive migration that is not named.
   */
  lemma {:induction false} RunHoldsTheUnnamed(means: Reading, base: seq<Row>, s: Session, pending: seq<Migration>,
                                              items: seq<Item>, faults: string -> Fault) returns (n: nat)
    requires s.open.NoTxn? && AreItems(items)
    ensures var report := ApplyFrom(means, base, s, pending, AckOf(items), faults, 0).report;
            && n <= |pending| && report.applied == Names(pending[..n])
            && (forall j :: 0 <= j < n ==> !Unacknowledged(pending[j], items))
            && match report
               case Finished(_, held) =>
                 held == Names(pending[n..]) && (n < |pending| ==> Unacknowledged(pending[n], items))
               case Failed(_, name) =>
                 n < |pending| && name == pending[n].name && !Unacknowledged(pending[n], items)
  {
    hide MustHold, Unacknowledged, ApplyFrom, AckOf;
    n := RunRecordsPrefix(means, base, s, pending, AckOf(items), faults, 0);
    forall j | 0 <= j < |pending|
      ensures MustHold(pending[j], AckOf(items)) <==> Unacknowledged(pending[j], items)
    {
      HeldIffUnacknowledged(pending[j], items);
    }
  }

  /** When nothing fails and nothing is recorded yet, everything before that migration is applied. */
  lemma {:induction false} EverythingElseRuns(means: Reading, base: seq<Row>, s: Session, pending: seq<Migration>,
                                              items: seq<Item>, n: nat)
    requires s.open.NoTxn? && AreItems(items) && n <= |pending|
    requires forall j :: 0 <= j < n ==> !Unacknowledged(pending[j], items)
    requires n < |pending| ==> Unacknowledged(pending[n], items)
    requires forall j, k :: 0 <= j < k < |pending| ==> pending[j].name != pending[k].name
    requires forall j :: 0 <= j < |pending| ==> !HasRow(LedgerRows(base, s.commits), pending[j].name)
    ensures ApplyFrom(means, base, s, pending, AckOf(items), _ => NoFault, 0).report
         == Finished(Names(pending[..n]), Names(pending[n..]))
  {
    hide MustHold, Unacknowledged, ApplyFrom, AckOf, HasRow, LedgerRows;
    var faults: string -> Fault := _ => NoFault;
    var r := ApplyFrom(means, base, s, pending, AckOf(items), faults, 0);
    var m := RunHoldsTheUnnamed(means, base, s, pending, items, faults);
    var m' := RunRecordsPrefix(means, base, s, pending, AckOf(items), faults, 0);
    assert |Names(pending[..m])| == |Names(pending[..m'])|;
    if r.report.Failed? {
      assert pending[0..m] == pending[..m];
      NotRecordedByOthers(LedgerRows(base, s.commits), pending, m);
      assert false;
    }
    assert m == n;
  }

  lemma {:induction false} NotRecordedByOthers(rows: seq<Row>, pending: seq<Migration>, m: nat)
    requires m < |pending| && !HasRow(rows, pending[m].name)
    requires forall j, k :: 0 <= j < k < |pending| ==> pending[j].name != pending[k].name
    ensures !HasRow(rows + RowsFor(pending[..m]), pending[m].name)
  {
    HasRowAppend(rows, RowsFor(pending[..m]), pending[m].name);
    assert forall k :: 0 <= k < m ==> RowsFor(pending[..m])[k].name == pending[k].name;
  }
}
