/** One run of the reconciler on all manifests: how it ends, and when nothing is demanded any more. */
module ReconcileAll {
  import opened Text
  import opened Reconcile
  import opened ReconcileGuard
  import opened ReconcileLaws
  import opened ReconcileClients
  import opened ReconcileMany

  // ----- the demands on one row

  /** No client's name ends in another's. */
  ghost predicate ClientsApart(ms: seq<Manifest>) {
    forall j, k :: 0 <= j < |ms| && 0 <= k < |ms| && j != k ==> !EndsWith(ms[j].client, ms[k].client)
  }

  lemma {:induction false} ClientsApartTail(ms: seq<Manifest>)
    requires ms != [] && ClientsApart(ms)
    ensures ClientsApart(ms[1..])
    ensures forall m :: m in ms[1..] ==> !EndsWith(ms[0].client, m.client) && !EndsWith(m.client, ms[0].client)
  {
    hide EndsWith;
    assert forall k :: 0 <= k < |ms| - 1 ==> ms[1..][k] == ms[k + 1];
  }

  /** A demand of a row is some manifest's, and every manifest's demand is among them. */
  lemma {:induction false} EditsAreDemands(key: Key, ms: seq<Manifest>, row: Row)
    ensures forall d :: d in EditsOf(key, ms, row) ==> exists m :: m in ms && EditOf(key, m, row) == Some(d)
    ensures forall m :: m in ms && EditOf(key, m, row).Some? ==> EditOf(key, m, row).value in EditsOf(key, ms, row)
  {
    hide EditOf;
    if ms != [] {
      EditsAreDemands(key, ms[1..], row);
      assert ms == [ms[0]] + ms[1..];
      forall d | d in EditsOf(key, ms[1..], row)
        ensures exists m :: m in ms && EditOf(key, m, row) == Some(d)
      {
        var m :| m in ms[1..] && EditOf(key, m, row) == Some(d);
        assert m in ms;
      }
    }
  }

  lemma {:induction false} EditIs(key: Key, m: Manifest, row: Row)
    ensures EditOf(key, m, row).Some? ==> EditOf(key, m, row).value.client == m.client && m.client in row.states
  {
    hide NextState;
  }

  lemma {:induction false} EditsApart(key: Key, ms: seq<Manifest>, row: Row)
    requires ClientsApart(ms)
    ensures NamesApart(EditsOf(key, ms, row))
  {
    hide EditOf, EndsWith, ClientsApart;
    if ms != [] {
      ClientsApartTail(ms);
      EditsApart(key, ms[1..], row);
      EditsAreDemands(key, ms[1..], row);
      EditIs(key, ms[0], row);
      var rest := EditsOf(key, ms[1..], row);
      forall d | d in rest
        ensures !EndsWith(ms[0].client, d.client) && !EndsWith(d.client, ms[0].client)
      {
        var m :| m in ms[1..] && EditOf(key, m, row) == Some(d);
        EditIs(key, m, row);
      }
      if d :| EditOf(key, ms[0], row) == Some(d) {
        ApartThen(d, rest);
      } else {
        assert [] + rest == rest;
      }
    }
  }

  lemma {:induction false} ApartThen(d: Edit, ds: seq<Edit>)
    requires NamesApart(ds)
    requires forall x :: x in ds ==> !EndsWith(d.client, x.client) && !EndsWith(x.client, d.client)
    ensures NamesApart([d] + ds)
  {
    hide EndsWith;
    assert forall k :: 0 <= k < |ds| ==> ([d] + ds)[k + 1] == ds[k] && ds[k] in ds;
  }

  ghost predicate EachTakes(b: seq<Line>, e: nat, implied: set<string>, ds: seq<Edit>) {
    forall k :: 0 <= k < |ds| ==> Takes(b, e, implied, ds, k)
  }

  /** Every change demanded of a row takes effect in its lines. */
  ghost predicate AllTake(key: Key, ms: seq<Manifest>, lines: seq<Line>, row: Row) {
    && row.line <= row.endLine < |lines|
    && EachTakes(lines[row.line..row.endLine + 1], row.endLine - row.line, row.implied, EditsOf(key, ms, row))
  }

  /**
   * What is read of a row after a run: the same entry, the new state where a change takes
   * effect, and the old state of every other client.
   */
  ghost predicate RowAfter(key: Key, ms: seq<Manifest>, lines: seq<Line>, row: Row, row': Row) {
    && row.line <= row.endLine < |lines|
    && row'.id == row.id && row'.method_ == row.method_ && row'.path == row.path
    && Edited(row.states, row'.states, lines[row.line..row.endLine + 1], row.endLine - row.line, row.implied,
              EditsOf(key, ms, row))
  }

  lemma {:induction false} Unmoved(key: Key, m: Manifest, row: Row, row': Row)
    requires row'.method_ == row.method_ && row'.path == row.path && SameAt(row.states, row'.states, m.client)
    ensures EditOf(key, m, row') == EditOf(key, m, row)
  {
    hide NextState;
  }

  lemma {:induction false} Moved(key: Key, m: Manifest, row: Row, row': Row, d: Edit)
    requires row'.method_ == row.method_ && row'.path == row.path && EditOf(key, m, row) == Some(d)
    requires d.client in row'.states && row'.states[d.client] == d.next
    ensures EditOf(key, m, row').None?
  {
    Settled(row.states[m.client], key(row.method_, row.path) in m.keys);
  }

  /** Two manifests whose demands name the same client are one. */
  lemma {:induction false} SameClient(ms: seq<Manifest>, m: Manifest, m': Manifest)
    requires ClientsApart(ms) && m in ms && m' in ms && m.client == m'.client
    ensures m == m'
  {
    var j :| 0 <= j < |ms| && ms[j] == m;
    var k :| 0 <= k < |ms| && ms[k] == m';
    var c := m.client;
    assert c[|c| - |c|..] == c;
  }

  /** A row is settled exactly when everything demanded of it took effect. */
  lemma {:induction false} RowSettled(key: Key, ms: seq<Manifest>, lines: seq<Line>, row: Row, row': Row)
    requires ClientsApart(ms) && RowAfter(key, ms, lines, row, row')
    ensures EditsOf(key, ms, row') == [] <==> AllTake(key, ms, lines, row)
    ensures StatesAll(ms, row) ==> StatesAll(ms, row')
  {
    hide EditOf, Takes, ClientsApart;
    var b, e, ds := lines[row.line..row.endLine + 1], row.endLine - row.line, EditsOf(key, ms, row);
    EditsAreDemands(key, ms, row);
    EditsAreDemands(key, ms, row');
    forall m | m in ms
      ensures m.client in row.states ==> m.client in row'.states
      ensures EditOf(key, m, row').Some? ==> !AllTake(key, ms, lines, row)
    {
      MovedOrNot(key, ms, row, row', b, e, m);
    }
    if EditsOf(key, ms, row') != [] {
      assert EditsOf(key, ms, row')[0] in EditsOf(key, ms, row');
    } else {
      forall k | 0 <= k < |ds|
        ensures Takes(b, e, row.implied, ds, k)
      {
        assert ds[k] in ds;
        var m :| m in ms && EditOf(key, m, row) == Some(ds[k]);
        EditIs(key, m, row);
        if !Takes(b, e, row.implied, ds, k) {
          Unmoved(key, m, row, row');
        }
      }
    }
  }

  lemma {:induction false} MovedOrNot(key: Key, ms: seq<Manifest>, row: Row, row': Row, b: seq<Line>, e: nat,
                                      m: Manifest)
    requires ClientsApart(ms) && m in ms && row'.method_ == row.method_ && row'.path == row.path
    requires Edited(row.states, row'.states, b, e, row.implied, EditsOf(key, ms, row))
    ensures m.client in row.states ==> m.client in row'.states
    ensures EditOf(key, m, row').Some? ==> !EachTakes(b, e, row.implied, EditsOf(key, ms, row))
  {
    hide EditOf, Takes, ClientsApart;
    var ds := EditsOf(key, ms, row);
    EditsAreDemands(key, ms, row);
    EditIs(key, m, row);
    if d :| EditOf(key, m, row) == Some(d) {
      var k :| 0 <= k < |ds| && ds[k] == d;
      if Takes(b, e, row.implied, ds, k) {
        Moved(key, m, row, row', d);
      }
    } else {
      forall k | 0 <= k < |ds|
        ensures ds[k].client != m.client
      {
        assert ds[k] in ds;
        var m' :| m' in ms && EditOf(key, m', row) == Some(ds[k]);
        EditIs(key, m', row);
        if m'.client == m.client {
          SameClient(ms, m, m');
        }
      }
      assert NoEditOf(ds, m.client);
      Unmoved(key, m, row, row');
    }
  }

  /** Every change demanded for the client in the row takes effect. */
  ghost predicate InEffect(key: Key, ms: seq<Manifest>, lines: seq<Line>, row: Row, client: string)
    requires row.line <= row.endLine < |lines|
  {
    var b, e, ds := lines[row.line..row.endLine + 1], row.endLine - row.line, EditsOf(key, ms, row);
    forall k :: 0 <= k < |ds| && ds[k].client == client ==> Takes(b, e, row.implied, ds, k)
  }

  /**
   * What the row then says: of a client with a manifest, `migrated` if it calls the row, `legacy`
   * if the row was migrated and it does not, and what it said otherwise; of anyone else, and
   * where a change takes no effect, what it said.
   */
  ghost predicate RowReads(key: Key, ms: seq<Manifest>, lines: seq<Line>, row: Row, row': Row) {
    && row.line <= row.endLine < |lines|
    && (forall m :: m in ms && m.client in row.states ==>
          var called, current := key(row.method_, row.path) in m.keys, row.states[m.client];
          && m.client in row'.states
          && row'.states[m.client]
             == if !InEffect(key, ms, lines, row, m.client) then current
                else if called then "migrated" else if current == "migrated" then "legacy" else current)
    && forall client :: (forall m :: m in ms ==> m.client != client) ==> SameAt(row.states, row'.states, client)
  }

  lemma {:induction false} RowSays(key: Key, ms: seq<Manifest>, lines: seq<Line>, row: Row, row': Row)
    requires ClientsApart(ms) && RowAfter(key, ms, lines, row, row')
    ensures RowReads(key, ms, lines, row, row')
  {
    hide EditOf, Takes, ClientsApart, NextState;
    forall m | m in ms && m.client in row.states
      ensures m.client in row'.states
      ensures row'.states[m.client] == if InEffect(key, ms, lines, row, m.client)
                                       then Owed(row.states[m.client], key(row.method_, row.path) in m.keys)
                                       else row.states[m.client]
    {
      ClientSays(key, ms, lines, row, row', m);
    }
    EditsAreDemands(key, ms, row);
    forall client | forall m :: m in ms ==> m.client != client
      ensures SameAt(row.states, row'.states, client)
    {
      NoManifestNoEdit(key, ms, row, client);
    }
  }

  lemma {:induction false} NoManifestNoEdit(key: Key, ms: seq<Manifest>, row: Row, client: string)
    requires forall m :: m in ms ==> m.client != client
    ensures NoEditOf(EditsOf(key, ms, row), client)
  {
    hide EditOf;
    var ds := EditsOf(key, ms, row);
    EditsAreDemands(key, ms, row);
    forall k | 0 <= k < |ds|
      ensures ds[k].client != client
    {
      assert ds[k] in ds;
      var m :| m in ms && EditOf(key, m, row) == Some(ds[k]);
      EditIs(key, m, row);
    }
  }

  /** The demands of a row that name a client are its manifest's. */
  lemma {:induction false} EditIsTheClients(key: Key, ms: seq<Manifest>, row: Row, m: Manifest, k: nat)
    requires ClientsApart(ms) && m in ms && k < |EditsOf(key, ms, row)| && EditsOf(key, ms, row)[k].client == m.client
    ensures EditOf(key, m, row) == Some(EditsOf(key, ms, row)[k])
  {
    hide EditOf, ClientsApart;
    var ds := EditsOf(key, ms, row);
    EditsAreDemands(key, ms, row);
    assert ds[k] in ds;
    var m' :| m' in ms && EditOf(key, m', row) == Some(ds[k]);
    EditIs(key, m', row);
    SameClient(ms, m, m');
  }

  lemma {:induction false} EditOwes(key: Key, m: Manifest, row: Row)
    requires m.client in row.states
    ensures match EditOf(key, m, row)
            case None => Owed(row.states[m.client], key(row.method_, row.path) in m.keys) == row.states[m.client]
            case Some(d) => d == Edit(m.client, Owed(row.states[m.client], key(row.method_, row.path) in m.keys))
  {
    NextIsOwed(row.states[m.client], key(row.method_, row.path) in m.keys);
  }

  lemma {:induction false} ClientSays(key: Key, ms: seq<Manifest>, lines: seq<Line>, row: Row, row': Row, m: Manifest)
    requires ClientsApart(ms) && RowAfter(key, ms, lines, row, row') && m in ms && m.client in row.states
    ensures m.client in row'.states
    ensures row'.states[m.client] == if InEffect(key, ms, lines, row, m.client)
                                     then Owed(row.states[m.client], key(row.method_, row.path) in m.keys)
                                     else row.states[m.client]
  {
    hide EditOf, Takes, ClientsApart, Owed, EditsOf;
    var ds := EditsOf(key, ms, row);
    EditOwes(key, m, row);
    EditsAreDemands(key, ms, row);
    if d :| EditOf(key, m, row) == Some(d) {
      var k :| 0 <= k < |ds| && ds[k] == d;
      forall j | 0 <= j < |ds| && ds[j].client == m.client
        ensures j == k
      {
        EditsApart(key, ms, row);
        SameName(ds, j, k);
      }
    } else {
      forall k | 0 <= k < |ds|
        ensures ds[k].client != m.client
      {
        if ds[k].client == m.client {
          EditIsTheClients(key, ms, row, m, k);
        }
      }
      assert NoEditOf(ds, m.client);
    }
  }

  lemma {:induction false} SameName(ds: seq<Edit>, j: nat, k: nat)
    requires NamesApart(ds) && j < |ds| && k < |ds| && ds[j].client == ds[k].client
    ensures j == k
  {
    var c := ds[j].client;
    assert c[|c| - |c|..] == c;
  }

  // ----- the rewritten document

  /** In no block is there a key that only ends in a client's name. */
  ghost predicate OwnKeys(ms: seq<Manifest>, doc: Doc) {
    match doc
    case End => true
    case Plain(_, rest) => OwnKeys(ms, rest)
    case Block(b, rest) => (forall m :: m in ms ==> OwnMatches(TokensOf(b), m.client)) && OwnKeys(ms, rest)
  }

  ghost predicate RowsAfter(key: Key, ms: seq<Manifest>, lines: seq<Line>, rows: seq<Row>, rows': seq<Row>) {
    |rows'| == |rows| && forall k :: 0 <= k < |rows| ==> RowAfter(key, ms, lines, rows[k], rows'[k])
  }

  lemma {:induction false} RowsAfterCons(key: Key, ms: seq<Manifest>, lines: seq<Line>, row: Row, row': Row,
                                         rows: seq<Row>, rows': seq<Row>)
    requires RowAfter(key, ms, lines, row, row') && RowsAfter(key, ms, lines, rows, rows')
    ensures RowsAfter(key, ms, lines, [row] + rows, [row'] + rows')
  {
    hide RowAfter;
  }

  lemma {:induction false} NoRowsAfter(key: Key, ms: seq<Manifest>, lines: seq<Line>)
    ensures RowsAfter(key, ms, lines, [], [])
  {
  }

  lemma {:induction false} PlainsValid(defaults: Defaults, lines: seq<Line>, doc: Doc, base: nat, e: Entry)
    requires ValidDoc(doc, e) && forall k :: 0 <= k < |lines| ==> lines[k].tag == OtherLine
    ensures ValidDoc(Plains(lines, doc), e)
    ensures ReadDoc(defaults, Plains(lines, doc), base, e) == ReadDoc(defaults, doc, base + |lines|, e)
  {
    hide IsBlock;
    if lines != [] {
      assert lines[0].tag == OtherLine && Step(e, lines[0]) == e;
      PlainsValid(defaults, lines[1..], doc, base + 1, e);
    }
  }

  lemma {:induction false} OutsideIsOther(e: nat, implied: set<string>, ds: seq<Edit>)
    ensures forall k :: 0 <= k < |Outside(e, implied, ds)| ==> Outside(e, implied, ds)[k].tag == OtherLine
  {
    if ds != [] {
      OutsideIsOther(e, implied, ds[1..]);
    }
  }

  lemma {:induction false} BlockEditable(defaults: Defaults, key: Key, ms: seq<Manifest>, b: seq<Line>, base: nat,
                                         e: Entry)
    requires b != [] && ClientsApart(ms) && forall m :: m in ms ==> OwnMatches(TokensOf(b), m.client)
    ensures var row := BlockRow(defaults, b, base, e);
            Editable(defaults, b, row.implied, EditsOf(key, ms, row))
  {
    hide EditOf, ClientsApart, NamesApart, OwnMatches, TokensOf, ImpliedOf, StatesOf;
    var row := BlockRow(defaults, b, base, e);
    var ds := EditsOf(key, ms, row);
    EditsApart(key, ms, row);
    EditsAreDemands(key, ms, row);
    forall k | 0 <= k < |ds|
      ensures OwnMatches(TokensOf(b), ds[k].client)
    {
      assert ds[k] in ds;
      var m :| m in ms && EditOf(key, m, row) == Some(ds[k]);
      EditIs(key, m, row);
    }
  }

  /** The block of a row, where it stands, becomes a block that is read as the row says. */
  lemma {:induction false} BlockReads(defaults: Defaults, key: Key, ms: seq<Manifest>, pre: seq<Line>, b: seq<Line>,
                                      post: seq<Line>, base: nat, e: Entry)
    requires IsBlock(b) && b != [] && ClientsApart(ms) && forall m :: m in ms ==> OwnMatches(TokensOf(b), m.client)
    ensures var row := BlockRow(defaults, b, |pre|, e);
            var w := Inside(b, |b| - 1, row.implied, EditsOf(key, ms, row));
            IsBlock(w) && RowAfter(key, ms, pre + b + post, row, BlockRow(defaults, w, base, e))
  {
    hide StatesOf, ImpliedOf, TokensOf, IsBlock, EditsOf, Edited, ClientsApart, OwnMatches, Inside, Editable;
    var lines, row := pre + b + post, BlockRow(defaults, b, |pre|, e);
    var ds := EditsOf(key, ms, row);
    BlockEditable(defaults, key, ms, b, |pre|, e);
    InsideIsBlock(b, |b| - 1, row.implied, ds);
    EditsRead(defaults, b, |b| - 1, row.implied, ds);
    assert row.line == |pre| && row.endLine + 1 == |pre| + |b|;
    assert lines[row.line..row.endLine + 1] == b;
  }

  /** What a run on all manifests makes of a document is read as the same entries, row by row as the changes say. */
  lemma {:induction false} RewriteAllReads(defaults: Defaults, key: Key, ms: seq<Manifest>, pre: seq<Line>, doc: Doc,
                                           base: nat, e: Entry)
    requires ValidDoc(doc, e) && ClientsApart(ms) && OwnKeys(ms, doc)
    ensures var doc' := RewriteAll(defaults, key, ms, doc, e);
            && ValidDoc(doc', e)
            && RowsAfter(key, ms, pre + Flatten(doc), ReadDoc(defaults, doc, |pre|, e),
                         ReadDoc(defaults, doc', base, e))
    decreases doc
  {
    hide StatesOf, ImpliedOf, TokensOf, IsBlock, EditsOf, ClientsApart, OwnMatches, Inside, Outside, RowAfter,
         RowsAfter, BlockRow, Plains;
    match doc
    case End => NoRowsAfter(key, ms, pre + Flatten(doc));
    case Plain(line, rest) =>
      RewriteAllReads(defaults, key, ms, pre + [line], rest, base + 1, Step(e, line));
      Reassociate(pre, [line], Flatten(rest));
    case Block(b, rest) =>
      var e', row := e.(id := ""), BlockRow(defaults, b, |pre|, e);
      var ds := EditsOf(key, ms, row);
      RowEdits(defaults, key, ms, b, |pre|, e);
      var w, below := Inside(b, |b| - 1, row.implied, ds), Outside(|b| - 1, row.implied, ds);
      var base' := base + |w| + |below|;
      var rest' := RewriteAll(defaults, key, ms, rest, e');
      RewriteAllReads(defaults, key, ms, pre + b, rest, base', e');
      Reassociate(pre, b, Flatten(rest));
      BlockReads(defaults, key, ms, pre, b, Flatten(rest), base, e);
      OutsideIsOther(|b| - 1, row.implied, ds);
      PlainsValid(defaults, below, rest', base + |w|, e');
      RowsAfterCons(key, ms, pre + b + Flatten(rest), row, BlockRow(defaults, w, base, e),
                    ReadDoc(defaults, rest, |pre + b|, e'), ReadDoc(defaults, rest', base', e'));
  }

  // ----- one run

  function RowsIn(defaults: Defaults, lines: seq<Line>): (rows: seq<Row>) {
    RowsFrom(defaults, lines, 0, "", "", "")
  }

  lemma {:induction false} ChangesForRows(key: Key, m: Manifest, rows: seq<Row>, n: nat)
    requires forall k :: 0 <= k < |rows| ==> rows[k].line <= rows[k].endLine < n
    ensures InRange(ChangesFor(key, m, rows), n)
    decreases |rows|
  {
    hide EditsOf;
    if rows != [] {
      ChangesForRows(key, m, rows[..|rows| - 1], n);
    }
  }

  lemma {:induction false} AllChangesInRange(key: Key, ms: seq<Manifest>, rows: seq<Row>, n: nat)
    requires forall k :: 0 <= k < |rows| ==> rows[k].line <= rows[k].endLine < n
    ensures InRange(AllChanges(key, ms, rows), n)
    decreases |ms|
  {
    hide ChangesFor;
    if ms != [] {
      AllChangesInRange(key, ms[..|ms| - 1], rows, n);
      ChangesForRows(key, ms[|ms| - 1], rows, n);
    }
  }

  lemma {:induction false} AtInRange(cs: seq<Change>, line: nat, n: nat)
    requires InRange(cs, n)
    ensures InRange(At(cs, line), n)
    decreases |cs|
  {
    if cs != [] {
      AtInRange(cs[..|cs| - 1], line, n);
    }
  }

  lemma {:induction false} ByLineInRange(cs: seq<Change>, k: nat, n: nat)
    requires InRange(cs, n)
    ensures InRange(ByLine(cs, k), n)
    decreases k
  {
    hide At;
    if k > 0 {
      AtInRange(cs, k - 1, n);
      ByLineInRange(cs, k - 1, n);
    }
  }

  /** The changes that all manifests demand of the file, in the order in which they are written back. */
  function SortedChanges(defaults: Defaults, key: Key, ms: seq<Manifest>, lines: seq<Line>): (cs: seq<Change>)
    ensures InRange(cs, |lines|)
  {
    var rows := RowsIn(defaults, lines);
    RowsAscend(defaults, lines, 0, "", "", "");
    AllChangesInRange(key, ms, rows, |lines|);
    ByLineInRange(AllChanges(key, ms, rows), |lines|, |lines|);
    ByLine(AllChanges(key, ms, rows), |lines|)
  }

  function WrittenAll(defaults: Defaults, key: Key, ms: seq<Manifest>, lines: seq<Line>): (out: seq<Line>) {
    ApplyChanges(lines, SortedChanges(defaults, key, ms, lines))
  }

  /** A file of entries and blocks is written as the rewritten document. */
  lemma {:induction false} WrittenIsRewritten(defaults: Defaults, key: Key, ms: seq<Manifest>, doc: Doc)
    requires ValidDoc(doc, NO_ENTRY)
    ensures RowsIn(defaults, Flatten(doc)) == ReadDoc(defaults, doc, 0, NO_ENTRY)
    ensures WrittenAll(defaults, key, ms, Flatten(doc)) == Flatten(RewriteAll(defaults, key, ms, doc, NO_ENTRY))
  {
    hide RowsFrom, ReadDoc, IsBlock, RewriteAll, ApplyChanges, AllChanges, ByLine, ChangesByRow, Ascending;
    var lines, rows := Flatten(doc), RowsIn(defaults, Flatten(doc));
    assert [] + lines == lines;
    ReadIsDoc(defaults, [], doc, NO_ENTRY);
    RowsAscend(defaults, lines, 0, "", "", "");
    RowsEnd(rows, |lines|);
    SortedByRow(key, ms, rows, 0, |lines|, |rows|, |lines|);
    assert rows[..|rows|] == rows;
    ApplyAllIsRewrite(defaults, key, ms, [], doc, NO_ENTRY);
    assert [] + Flatten(RewriteAll(defaults, key, ms, doc, NO_ENTRY))
           == Flatten(RewriteAll(defaults, key, ms, doc, NO_ENTRY));
  }

  lemma {:induction false} RowsEnd(rows: seq<Row>, n: nat)
    requires Ascending(rows, 0, n)
    ensures forall k :: 0 <= k < |rows| ==> rows[k].line < n
  {
  }

  ghost predicate DemandsNothing(key: Key, m: Manifest, rows: seq<Row>) {
    forall k :: 0 <= k < |rows| ==> EditOf(key, m, rows[k]).None?
  }

  lemma {:induction false} NoChangesIff(key: Key, m: Manifest, rows: seq<Row>)
    ensures ChangesFor(key, m, rows) == [] <==> DemandsNothing(key, m, rows)
    decreases |rows|
  {
    hide EditOf;
    if rows != [] {
      var last := |rows| - 1;
      NoChangesIff(key, m, rows[..last]);
      OneDemand(key, m, rows[last]);
    }
  }

  lemma {:induction false} OneDemand(key: Key, m: Manifest, row: Row)
    ensures EditsOf(key, [m], row) == [] <==> EditOf(key, m, row).None?
  {
    hide EditOf;
    EditsAreDemands(key, [m], row);
    if EditsOf(key, [m], row) != [] {
      assert EditsOf(key, [m], row)[0] in EditsOf(key, [m], row);
    }
  }

  lemma {:induction false} NothingDemandedIff(key: Key, ms: seq<Manifest>, rows: seq<Row>)
    ensures AllChanges(key, ms, rows) == [] <==> forall m :: m in ms ==> DemandsNothing(key, m, rows)
    decreases |ms|
  {
    hide DemandsNothing, ChangesFor;
    if ms != [] {
      var last := |ms| - 1;
      NothingDemandedIff(key, ms[..last], rows);
      NoChangesIff(key, ms[last], rows);
      assert forall m :: m in ms <==> m in ms[..last] || m == ms[last] by {
        assert ms == ms[..last] + [ms[last]];
      }
      assert AllChanges(key, ms, rows) == AllChanges(key, ms[..last], rows) + ChangesFor(key, ms[last], rows);
    }
  }

  lemma {:induction false} NoEditsIff(key: Key, ms: seq<Manifest>, row: Row)
    ensures EditsOf(key, ms, row) == [] <==> forall m :: m in ms ==> EditOf(key, m, row).None?
  {
    hide EditOf;
    EditsAreDemands(key, ms, row);
    if EditsOf(key, ms, row) != [] {
      assert EditsOf(key, ms, row)[0] in EditsOf(key, ms, row);
    }
  }

  ghost predicate RowsRead(key: Key, ms: seq<Manifest>, lines: seq<Line>, rows: seq<Row>, rows': seq<Row>) {
    |rows'| == |rows| && forall k :: 0 <= k < |rows| ==> RowReads(key, ms, lines, rows[k], rows'[k])
  }

  /** Each client's rows are migrated if and only if it calls them. */
  ghost predicate MigratedIffCalled(key: Key, ms: seq<Manifest>, rows: seq<Row>) {
    forall m, k :: m in ms && 0 <= k < |rows| && m.client in rows[k].states ==>
      (rows[k].states[m.client] == "migrated" <==> key(rows[k].method_, rows[k].path) in m.keys)
  }

  lemma {:induction false} NothingDemandedMeans(key: Key, ms: seq<Manifest>, rows: seq<Row>)
    ensures AllChanges(key, ms, rows) == [] <==> MigratedIffCalled(key, ms, rows)
  {
    hide EditOf, AllChanges;
    NothingDemandedIff(key, ms, rows);
    forall m, k | m in ms && 0 <= k < |rows|
      ensures EditOf(key, m, rows[k]).None? <==>
                m.client in rows[k].states ==>
                  (rows[k].states[m.client] == "migrated" <==> key(rows[k].method_, rows[k].path) in m.keys)
    {
      DemandsIff(key, m, rows[k]);
    }
  }

  lemma {:induction false} DemandsIff(key: Key, m: Manifest, row: Row)
    ensures EditOf(key, m, row).None? <==>
              (m.client in row.states ==>
                 (row.states[m.client] == "migrated" <==> key(row.method_, row.path) in m.keys))
  {
    if m.client in row.states {
      NextIsOwed(row.states[m.client], key(row.method_, row.path) in m.keys);
    }
  }

  /**
   * One run on all manifests: the same entries are read after it, and each row says of each
   * client what `RowReads` spells out. Nothing is demanded any more, which is to say that every
   * client's rows are migrated if and only if it calls them, exactly when every change took effect.
   */
  lemma {:induction false} OneRunReconcilesAll(defaults: Defaults, key: Key, ms: seq<Manifest>, doc: Doc)
    requires ValidDoc(doc, NO_ENTRY) && ClientsApart(ms) && OwnKeys(ms, doc)
    ensures var lines, out := Flatten(doc), WrittenAll(defaults, key, ms, Flatten(doc));
            var rows, rows' := RowsIn(defaults, lines), RowsIn(defaults, out);
            && SameEntries(rows, rows') && RowsRead(key, ms, lines, rows, rows')
            && (AllStatesAll(ms, rows) ==> AllStatesAll(ms, rows'))
            && (AllChanges(key, ms, rows') == [] <==> MigratedIffCalled(key, ms, rows'))
            && (AllChanges(key, ms, rows') == [] <==>
                  forall k :: 0 <= k < |rows| ==> AllTake(key, ms, lines, rows[k]))
  {
    hide RowsIn, ReadDoc, IsBlock, RewriteAll, AllChanges, RowAfter, WrittenAll, ClientsApart, EditOf, EditsOf,
         AllTake, OwnKeys, StatesAll, RowReads, MigratedIffCalled;
    var doc' := RewriteAll(defaults, key, ms, doc, NO_ENTRY);
    WrittenIsRewritten(defaults, key, ms, doc);
    RewriteAllReads(defaults, key, ms, [], doc, 0, NO_ENTRY);
    WrittenIsRewritten(defaults, key, ms, doc');
    var lines, rows, rows' := Flatten(doc), RowsIn(defaults, Flatten(doc)), RowsIn(defaults, Flatten(doc'));
    assert [] + lines == lines;
    forall k | 0 <= k < |rows|
      ensures EditsOf(key, ms, rows'[k]) == [] <==> AllTake(key, ms, lines, rows[k])
      ensures StatesAll(ms, rows[k]) ==> StatesAll(ms, rows'[k])
    {
      RowSettled(key, ms, lines, rows[k], rows'[k]);
    }
    AllRowsRead(key, ms, lines, rows, rows');
    NothingDemandedMeans(key, ms, rows');
    NothingDemandedIff(key, ms, rows');
    forall k | 0 <= k < |rows'|
      ensures EditsOf(key, ms, rows'[k]) == [] <==> forall m :: m in ms ==> EditOf(key, m, rows'[k]).None?
    {
      NoEditsIff(key, ms, rows'[k]);
    }
  }

  lemma {:induction false} AllRowsRead(key: Key, ms: seq<Manifest>, lines: seq<Line>, rows: seq<Row>, rows': seq<Row>)
    requires ClientsApart(ms) && RowsAfter(key, ms, lines, rows, rows')
    ensures SameEntries(rows, rows') && RowsRead(key, ms, lines, rows, rows')
  {
    hide RowReads, Edited, ClientsApart;
    forall k | 0 <= k < |rows|
      ensures RowReads(key, ms, lines, rows[k], rows'[k])
    {
      RowSays(key, ms, lines, rows[k], rows'[k]);
    }
  }

  // ----- the run

  /** How a run ends. */
  datatype Outcome =
    | Unread(ids: seq<string>)                  // entries the reader could not see
    | NoManifests
    | Stateless(manifest: nat, row: nat)        // the row states nothing for the manifest's client
    | Orphaned(manifest: nat, keys: set<string>) // calls that match no row
    | Agrees                                    // checked, and nothing is demanded
    | Disagrees(changes: seq<Change>)           // checked, and this is
    | Written(lines: seq<Line>)

  /** Every row states something for the client, and every call matches a row. */
  predicate Fits(key: Key, m: Manifest, rows: seq<Row>) {
    AllState(rows, m.client) && Orphans(key, m.keys, rows) == {}
  }

  predicate AllFit(key: Key, ms: seq<Manifest>, rows: seq<Row>) {
    forall m :: m in ms ==> Fits(key, m, rows)
  }

  method ChangesOf(key: Key, m: Manifest, rows: seq<Row>) returns (cs: seq<Change>, bad: Option<nat>)
    ensures bad.None? <==> AllState(rows, m.client)
    ensures bad.Some? ==> bad.value < |rows| && m.client !in rows[bad.value].states
                          && AllState(rows[..bad.value], m.client)
    ensures bad.None? ==> cs == ChangesFor(key, m, rows)
  {
    hide NextState;
    cs, bad := [], None;
    var k := 0;
    assert rows[..0] == [];
    while k < |rows|
      invariant 0 <= k <= |rows| && AllState(rows[..k], m.client) && bad == None
      invariant cs == ChangesFor(key, m, rows[..k])
    {
      var row := rows[k];
      if m.client !in row.states {
        bad := Some(k);
        return;
      }
      assert rows[..k + 1] == rows[..k] + [row] && rows[..k + 1][..k] == rows[..k];
      OneEditIs(key, m, row);
      var next := NextState(row.states[m.client], key(row.method_, row.path) in m.keys);
      if next.Some? {
        cs := cs + [Change(row, m.client, next.value)];
      }
      k := k + 1;
    }
    assert rows[..k] == rows;
  }

  lemma {:induction false} OneEditIs(key: Key, m: Manifest, row: Row)
    requires m.client in row.states
    ensures var next := NextState(row.states[m.client], key(row.method_, row.path) in m.keys);
            ChangesTo(row, EditsOf(key, [m], row)) == if next.None? then [] else [Change(row, m.client, next.value)]
  {
    hide NextState;
    assert [m][1..] == [];
    var none: seq<Manifest> := [];
    assert EditsOf(key, none, row) == [];
  }

  /** The first manifest that does not fit, and why. */
  predicate FirstUnfit(key: Key, ms: seq<Manifest>, rows: seq<Row>, out: Outcome) {
    match out
    case Stateless(i, k) =>
      && i < |ms| && AllFit(key, ms[..i], rows) && k < |rows|
      && ms[i].client !in rows[k].states && AllState(rows[..k], ms[i].client)
    case Orphaned(i, keys) =>
      && i < |ms| && AllFit(key, ms[..i], rows) && AllState(rows, ms[i].client)
      && keys == Orphans(key, ms[i].keys, rows) != {}
    case _ => false
  }

  /** The run on all manifests, with or without `--check`. The first manifest that does not fit ends it. */
  method ReconcileAllManifests(defaults: Defaults, key: Key, ms: seq<Manifest>, lines: seq<Line>, check: bool)
    returns (out: Outcome)
    ensures var rows := RowsIn(defaults, lines);
            var missed, cs := Missed(CountEntries(lines), SeenIds(rows)), AllChanges(key, ms, rows);
            if missed != [] then out == Outcome.Unread(missed)
            else if ms == [] then out == NoManifests
            else if !AllFit(key, ms, rows) then FirstUnfit(key, ms, rows, out)
            else if !check then out == Outcome.Written(WrittenAll(defaults, key, ms, lines))
            else out == if cs == [] then Agrees else Disagrees(cs)
  {
    hide RowsFrom, ChangesFor, ApplyChanges, Missed, SeenIds, CountEntries, AllState, Orphans, ByLine, InRange;
    var rows := ReadContractRows(defaults, lines);
    var missed := Missed(CountEntries(lines), SeenIds(rows));
    if missed != [] {
      return Outcome.Unread(missed);
    }
    if ms == [] {
      return NoManifests;
    }
    var changes: seq<Change> := [];
    var i := 0;
    while i < |ms|
      invariant 0 <= i <= |ms| && AllFit(key, ms[..i], rows)
      invariant changes == AllChanges(key, ms[..i], rows)
    {
      var cs, bad := ChangesOf(key, ms[i], rows);
      if bad.Some? {
        out := Outcome.Stateless(i, bad.value);
        assert !Fits(key, ms[i], rows);
        return;
      }
      changes := changes + cs;
      var orphans := Orphans(key, ms[i].keys, rows);
      if orphans != {} {
        out := Outcome.Orphaned(i, orphans);
        assert !Fits(key, ms[i], rows);
        return;
      }
      assert ms[..i + 1] == ms[..i] + [ms[i]] && ms[..i + 1][..i] == ms[..i];
      i := i + 1;
    }
    assert ms[..i] == ms;
    if check {
      return if changes == [] then Agrees else Disagrees(changes);
    }
    assert SortedChanges(defaults, key, ms, lines) == ByLine(changes, |lines|);
    var written := WriteBack(lines, ByLine(changes, |lines|));
    out := Outcome.Written(written);
  }
}
