/**
 * Several clients have a change in one row: each change is made at line numbers taken
 * before the others. What becomes of the block, and which changes the reader sees.
 */
module ReconcileClients {
  import opened Text
  import opened Reconcile
  import opened ReconcileLaws

  /** What a row must say of one client. */
  datatype Edit = Edit(client: string, next: string)

  /** One change to lines `w` that begin with a block whose closing line was `e`. */
  function EditOne(w: seq<Line>, e: nat, implied: set<string>, d: Edit): (r: seq<Line>)
    requires e < |w|
    ensures |r| >= |w|
  {
    if d.client in implied then [w[0], Inserted(d.client, d.next)] + w[1..] else WriteLines(w, 0, e, d.client, d.next)
  }

  function EditAll(w: seq<Line>, e: nat, implied: set<string>, ds: seq<Edit>): (r: seq<Line>)
    requires e < |w|
    ensures |r| >= |w|
    decreases |ds|
  {
    if ds == [] then w else EditAll(EditOne(w, e, implied, ds[0]), e, implied, ds[1..])
  }

  /** What becomes of the lines that are read as the block: below a block on one line nothing is read. */
  function InsideOne(w: seq<Line>, e: nat, implied: set<string>, d: Edit): (r: seq<Line>)
    requires e < |w|
    ensures |r| >= |w|
  {
    if e == 0 && d.client in implied then w else EditOne(w, e, implied, d)
  }

  function Inside(w: seq<Line>, e: nat, implied: set<string>, ds: seq<Edit>): (r: seq<Line>)
    requires e < |w|
    ensures |r| >= |w|
    decreases |ds|
  {
    if ds == [] then w else Inside(InsideOne(w, e, implied, ds[0]), e, implied, ds[1..])
  }

  /** The lines that land below a block on one line. */
  function Outside(e: nat, implied: set<string>, ds: seq<Edit>): (r: seq<Line>) {
    if ds == [] then []
    else
      Outside(e, implied, ds[1..])
      + (if e == 0 && ds[0].client in implied then [Inserted(ds[0].client, ds[0].next)] else [])
  }

  lemma {:induction false} EditsSplit(w: seq<Line>, e: nat, implied: set<string>, ds: seq<Edit>, below: seq<Line>)
    requires e < |w| && (e == 0 ==> |w| == 1) && (e > 0 ==> below == [])
    ensures EditAll(w + below, e, implied, ds) == Inside(w, e, implied, ds) + (Outside(e, implied, ds) + below)
    decreases |ds|
  {
    hide WriteLines;
    if ds == [] {
      assert [] + below == below;
    } else {
      var d, rest := ds[0], Outside(e, implied, ds[1..]);
      if e == 0 && d.client in implied {
        var line := Inserted(d.client, d.next);
        assert [(w + below)[0], line] + (w + below)[1..] == w + ([line] + below);
        EditsSplit(w, e, implied, ds[1..], [line] + below);
        assert rest + ([line] + below) == rest + [line] + below;
      } else {
        WriteAbove(w, e, below, d);
        InsertAbove(w, below, d);
        EditsSplit(EditOne(w, e, implied, d), e, implied, ds[1..], below);
        assert rest + [] == rest;
      }
    }
  }

  lemma {:induction false} InsertAbove(w: seq<Line>, below: seq<Line>, d: Edit)
    requires w != []
    ensures [(w + below)[0], Inserted(d.client, d.next)] + (w + below)[1..]
         == [w[0], Inserted(d.client, d.next)] + w[1..] + below
  {
  }

  lemma {:induction false} WriteAbove(w: seq<Line>, e: nat, below: seq<Line>, d: Edit)
    requires e < |w|
    ensures WriteLines(w + below, 0, e, d.client, d.next) == WriteLines(w, 0, e, d.client, d.next) + below
  {
    WriteAboveFrom(w, 0, e, below, d);
  }

  lemma {:induction false} WriteAboveFrom(w: seq<Line>, i: nat, e: nat, below: seq<Line>, d: Edit)
    requires e < |w|
    ensures WriteLines(w + below, i, e, d.client, d.next) == WriteLines(w, i, e, d.client, d.next) + below
    decreases e + 1 - i
  {
    hide LineMatches, WriteToks;
    if i <= e {
      assert (w + below)[i] == w[i];
      WriteAboveFrom(w, i + 1, e, below, d);
    }
  }

  // ----- the block stays a block

  lemma {:induction false} InsideIsBlock(w: seq<Line>, e: nat, implied: set<string>, ds: seq<Edit>)
    requires IsBlock(w) && e < |w| && (e == 0 ==> |w| == 1)
    ensures IsBlock(Inside(w, e, implied, ds))
    decreases |ds|
  {
    hide IsBlock, WriteLines;
    if ds != [] {
      var d := ds[0];
      if d.client in implied {
        if e > 0 {
          InsertedIsBlock(w, d.client, d.next);
        }
      } else {
        WrittenIsBlock(w, e, d);
      }
      InsideIsBlock(InsideOne(w, e, implied, d), e, implied, ds[1..]);
    }
  }

  lemma {:induction false} WrittenIsBlock(w: seq<Line>, e: nat, d: Edit)
    requires IsBlock(w) && e < |w|
    ensures IsBlock(WriteLines(w, 0, e, d.client, d.next))
  {
    hide WriteToks, WriteLines, ClosingFrom;
    WriteLinesShape(w, 0, e, d.client, d.next);
    ClosingSameShape(w, WriteLines(w, 0, e, d.client, d.next), 0, 0, d.client, d.next);
  }

  // ----- where the writer looks

  /** The first line at or after `i` with a match, or the number of lines. */
  function FirstLine(w: seq<Line>, i: nat, client: string): (k: nat)
    requires i <= |w|
    ensures i <= k <= |w|
    ensures forall j :: i <= j < k ==> !LineMatches(w[j], client)
    ensures k < |w| ==> LineMatches(w[k], client)
    decreases |w| - i
  {
    if i < |w| && !LineMatches(w[i], client) then FirstLine(w, i + 1, client) else i
  }

  lemma {:induction false} FirstLineIs(w: seq<Line>, i: nat, client: string, k: nat)
    requires i <= k <= |w| && (forall j :: i <= j < k ==> !LineMatches(w[j], client))
    requires k < |w| ==> LineMatches(w[k], client)
    ensures FirstLine(w, i, client) == k
    decreases k - i
  {
    hide LineMatches;
    if i < k {
      FirstLineIs(w, i + 1, client, k);
    }
  }

  /** Writing in the lines up to `e` is writing in all of them, or in none. */
  lemma {:induction false} WriteReaches(w: seq<Line>, i: nat, e: nat, client: string, next: string)
    requires e < |w| && i <= |w|
    ensures WriteLines(w, i, e, client, next)
         == if FirstLine(w, i, client) <= e then WriteLines(w, i, |w| - 1, client, next) else w
    decreases |w| - i
  {
    hide LineMatches, WriteToks;
    if i < |w| && !LineMatches(w[i], client) {
      WriteReaches(w, i + 1, e, client, next);
    }
  }

  /** Line by line the same tags and keys. */
  ghost predicate SameLines(a: seq<Line>, c: seq<Line>) {
    |a| == |c| && forall k :: 0 <= k < |a| ==> c[k].tag == a[k].tag && SameKeys(a[k].toks, c[k].toks)
  }

  lemma {:induction false} WriteKeepsLines(w: seq<Line>, i: nat, e: nat, client: string, next: string)
    requires e < |w|
    ensures SameLines(w, WriteLines(w, i, e, client, next))
    decreases e + 1 - i
  {
    hide LineMatches, WriteToks;
    if i <= e {
      if LineMatches(w[i], client) {
        WriteKeepsKeys(w[i].toks, client, next);
      } else {
        WriteKeepsLines(w, i + 1, e, client, next);
      }
    }
  }

  lemma {:induction false} SameLinesSameFirst(a: seq<Line>, c: seq<Line>, client: string)
    requires SameLines(a, c)
    ensures FirstLine(c, 0, client) == FirstLine(a, 0, client)
  {
    hide WriterMatches, SameKeys;
    forall k | 0 <= k < |a|
      ensures LineMatches(c[k], client) <==> LineMatches(a[k], client)
    {
      SameKeysSameMatch(a[k].toks, c[k].toks, client);
    }
    FirstLineIs(c, 0, client, FirstLine(a, 0, client));
  }

  lemma {:induction false} SameKeysSameMatch(a: seq<Tok>, c: seq<Tok>, client: string)
    requires SameKeys(a, c)
    ensures HasMatch(c, client) <==> HasMatch(a, client)
  {
    if k :| 0 <= k < |a| && WriterMatches(a[k], client) {
      assert WriterMatches(c[k], client);
    }
    if k :| 0 <= k < |c| && WriterMatches(c[k], client) {
      assert WriterMatches(a[k], client);
    }
  }

  lemma {:induction false} SameLinesSameToks(a: seq<Line>, c: seq<Line>)
    requires SameLines(a, c)
    ensures SameKeys(TokensOf(a), TokensOf(c)) && SameKeys(TokensOf(c), TokensOf(a))
    decreases |a|
  {
    if a != [] {
      assert forall k :: 0 <= k < |a| - 1 ==> a[1..][k] == a[k + 1] && c[1..][k] == c[k + 1];
      SameLinesSameToks(a[1..], c[1..]);
    }
  }

  /** A new line below the first moves every other match down by one. */
  lemma {:induction false} InsertMoves(w: seq<Line>, d: Edit, client: string)
    requires w != [] && !WriterMatches(Pair(d.client, d.next, true), client)
    ensures var k := FirstLine(w, 0, client);
            FirstLine([w[0], Inserted(d.client, d.next)] + w[1..], 0, client) == if k == 0 then 0 else k + 1
  {
    hide WriterMatches;
    var v, k := [w[0], Inserted(d.client, d.next)] + w[1..], FirstLine(w, 0, client);
    assert forall j :: 0 <= j < |v| ==> v[j] == if j == 0 then w[0] else if j == 1 then Inserted(d.client, d.next)
                                                else w[j - 1];
    FirstLineIs(v, 0, client, if k == 0 then 0 else k + 1);
  }

  // ----- what the reader sees

  /** A pair that is no key of the client, and does not look like one to the writer, changes nothing for it. */
  lemma {:induction false} HitsBeside(x: seq<Tok>, t: Tok, y: seq<Tok>, client: string)
    requires !IsKey(t, client) && !WriterMatches(t, client)
    ensures HitsKey(x + [t] + y, client) <==> HitsKey(x + y, client)
  {
    hide HitsKey;
    if HitsKey(x + y, client) {
      HitsWith(x, t, y, client);
    } else if HitsKey(x + [t] + y, client) {
      HitsWithout(x, t, y, client);
    }
  }

  lemma {:induction false} HitsWith(x: seq<Tok>, t: Tok, y: seq<Tok>, client: string)
    requires !IsKey(t, client) && !WriterMatches(t, client) && HitsKey(x + y, client)
    ensures HitsKey(x + [t] + y, client)
  {
    hide WriterMatches, IsKey;
    var a, c := x + y, x + [t] + y;
    assert forall k :: 0 <= k < |c| ==> c[k] == if k == |x| then t else a[if k < |x| then k else k - 1];
    var p: nat :| FirstMatch(a, client, p) && IsKey(a[p], client) && forall k :: p < k < |a| ==> !IsKey(a[k], client);
    assert FirstMatch(c, client, if p < |x| then p else p + 1);
  }

  lemma {:induction false} HitsWithout(x: seq<Tok>, t: Tok, y: seq<Tok>, client: string)
    requires !IsKey(t, client) && !WriterMatches(t, client) && HitsKey(x + [t] + y, client)
    ensures HitsKey(x + y, client)
  {
    hide WriterMatches, IsKey;
    var a, c := x + y, x + [t] + y;
    assert forall k :: 0 <= k < |a| ==> a[k] == c[if k < |x| then k else k + 1];
    var p: nat :| FirstMatch(c, client, p) && IsKey(c[p], client) && forall k :: p < k < |c| ==> !IsKey(c[k], client);
    assert p != |x|;
    assert FirstMatch(a, client, if p < |x| then p else p - 1);
  }

  /** Whatever looks like a key of the client to the writer is one. */
  ghost predicate OwnMatches(toks: seq<Tok>, client: string) {
    forall k :: 0 <= k < |toks| && WriterMatches(toks[k], client) ==> toks[k].client == client
  }

  lemma {:induction false} SameKeysOwn(a: seq<Tok>, c: seq<Tok>, client: string)
    requires SameKeys(a, c) && OwnMatches(a, client)
    ensures OwnMatches(c, client)
  {
    forall k | 0 <= k < |c| && WriterMatches(c[k], client)
      ensures c[k].client == client
    {
      assert WriterMatches(a[k], client);
    }
  }

  /** A write is seen exactly when its first match is the key whose value the reader takes. */
  lemma {:induction false} WriteSeen(defaults: Defaults, toks: seq<Tok>, client: string, next: string)
    requires OwnMatches(toks, client)
    ensures StatesOf(defaults, WriteToks(toks, client, next))
         == if HitsKey(toks, client) then StatesOf(defaults, toks)[client := next] else StatesOf(defaults, toks)
  {
    hide StatesOf, WriterMatches, WriteToks;
    WriteToksAt(toks, client, next);
    if x: nat :| FirstMatch(toks, client, x) {
      MatchIsPair(toks[x], client);
      RevaluedReads(defaults, toks, x, next);
      if HitsKey(toks, client) {
        var y: nat :| FirstMatch(toks, client, y) && IsKey(toks[y], client)
                   && forall k :: y < k < |toks| ==> !IsKey(toks[k], client);
        assert x == y;
      }
    } else {
      NoFirstMatch(toks, client, |toks|);
    }
  }

  /** The clients of the edits have different names, none of which ends in another. */
  ghost predicate NamesApart(ds: seq<Edit>) {
    forall j, k :: 0 <= j < |ds| && 0 <= k < |ds| && j != k ==> !EndsWith(ds[j].client, ds[k].client)
  }

  /** The edits can be made to the lines `w`: what is taken for implied is, and no match is another client's key. */
  ghost predicate Editable(defaults: Defaults, w: seq<Line>, implied: set<string>, ds: seq<Edit>) {
    && w != [] && NamesApart(ds)
    && forall k :: 0 <= k < |ds| ==>
         && OwnMatches(TokensOf(w), ds[k].client)
         && (ds[k].client in implied ==> ds[k].client in ImpliedOf(defaults, TokensOf(w)))
  }

  function InsertsBefore(implied: set<string>, ds: seq<Edit>, k: nat): (n: nat)
    requires k <= |ds|
    decreases k
  {
    if k == 0 then 0 else InsertsBefore(implied, ds, k - 1) + if ds[k - 1].client in implied then 1 else 0
  }

  /**
   * Edit `k` takes effect: a state from a spread is overridden inside the block, or the key
   * is found in the lines that were the block's, and is the one that counts.
   */
  ghost predicate Takes(w: seq<Line>, e: nat, implied: set<string>, ds: seq<Edit>, k: nat)
    requires k < |ds|
  {
    if ds[k].client in implied then
      e > 0 && ds[k].client != "callers"
    else
      var line := FirstLine(w, 0, ds[k].client);
      HitsKey(TokensOf(w), ds[k].client) && (line == 0 || line + InsertsBefore(implied, ds, k) <= e)
  }

  lemma {:induction false} InsertsThen(implied: set<string>, ds: seq<Edit>, k: nat)
    requires ds != [] && k < |ds|
    ensures InsertsBefore(implied, ds, k + 1)
         == (if ds[0].client in implied then 1 else 0) + InsertsBefore(implied, ds[1..], k)
    decreases k
  {
    if k > 0 {
      InsertsThen(implied, ds, k - 1);
      assert ds[1..][k - 1] == ds[k];
    }
  }

  /** What stays of the matter of `client` when another client's edit has been made. */
  ghost predicate SameMatter(defaults: Defaults, w: seq<Line>, v: seq<Line>, client: string) {
    && (OwnMatches(TokensOf(w), client) ==> OwnMatches(TokensOf(v), client))
    && (HitsKey(TokensOf(v), client) <==> HitsKey(TokensOf(w), client))
    && (client in ImpliedOf(defaults, TokensOf(w)) ==> client in ImpliedOf(defaults, TokensOf(v)))
  }

  lemma {:induction false} InsertBeside(defaults: Defaults, w: seq<Line>, d: Edit, client: string)
    requires w != [] && !EndsWith(d.client, client) && d.client != client
    ensures var v := [w[0], Inserted(d.client, d.next)] + w[1..];
            SameMatter(defaults, w, v, client)
    ensures var k := FirstLine(w, 0, client);
            FirstLine([w[0], Inserted(d.client, d.next)] + w[1..], 0, client) == if k == 0 then 0 else k + 1
  {
    hide EndsWith, SpreadStates, HitsKey, TokensOf, Inserted, FirstLine;
    var t, x, y := Pair(d.client, d.next, true), w[0].toks, TokensOf(w[1..]);
    InsertedToks(w, d.client, d.next);
    SplitHeadToks(w);
    HitsBeside(x, t, y, client);
    SpreadIgnoresPairs(defaults, x, t, y);
    InsertMoves(w, d, client);
    NoOtherPair(x, t, y, client);
  }

  lemma {:induction false} NoOtherPair(x: seq<Tok>, t: Tok, y: seq<Tok>, client: string)
    requires t.Pair? && t.client != client && !WriterMatches(t, client)
    ensures HasPair(x + [t] + y, client) ==> HasPair(x + y, client)
    ensures OwnMatches(x + y, client) ==> OwnMatches(x + [t] + y, client)
  {
    hide WriterMatches;
    var a, c := x + y, x + [t] + y;
    assert forall k :: 0 <= k < |c| ==> c[k] == if k == |x| then t else a[if k < |x| then k else k - 1];
  }

  lemma {:induction false} WriteBeside(defaults: Defaults, w: seq<Line>, e: nat, d: Edit, client: string)
    requires e < |w|
    ensures var v := WriteLines(w, 0, e, d.client, d.next);
            SameMatter(defaults, w, v, client) && FirstLine(v, 0, client) == FirstLine(w, 0, client)
  {
    hide WriteLines, SpreadStates, HitsKey, HasPair, SameKeys, TokensOf, FirstLine, OwnMatches;
    var v := WriteLines(w, 0, e, d.client, d.next);
    WriteKeepsLines(w, 0, e, d.client, d.next);
    SameLinesSameFirst(w, v, client);
    SameLinesSameToks(w, v);
    SameKeysSameHits(TokensOf(w), TokensOf(v), client);
    SameKeysSameHits(TokensOf(v), TokensOf(w), client);
    SpreadIgnoresValues(defaults, TokensOf(w), TokensOf(v));
    if OwnMatches(TokensOf(w), client) {
      SameKeysOwn(TokensOf(w), TokensOf(v), client);
    }
  }

  /** What the first edit does for its own client. */
  lemma {:induction false} OneEditReads(defaults: Defaults, w: seq<Line>, e: nat, implied: set<string>, ds: seq<Edit>)
    requires ds != [] && e < |w| && Editable(defaults, w, implied, ds)
    ensures StatesOf(defaults, TokensOf(InsideOne(w, e, implied, ds[0])))
         == if Takes(w, e, implied, ds, 0) then StatesOf(defaults, TokensOf(w))[ds[0].client := ds[0].next]
            else StatesOf(defaults, TokensOf(w))
  {
    hide StatesOf, ImpliedOf, HitsKey, TokensOf, WriteLines, WriteToks, OwnMatches, NamesApart, FirstLine;
    var d := ds[0];
    if d.client in implied {
      InsertedReads(Job(defaults, d.client, (m, p) => false), w, d.next);
    } else {
      WriteReaches(w, 0, e, d.client, d.next);
      WriteLinesToks(w, 0, d.client, d.next);
      NoLines();
      assert w[..0] == [] && w[0..] == w;
      assert [] + WriteToks(TokensOf(w), d.client, d.next) == WriteToks(TokensOf(w), d.client, d.next);
      WriteSeen(defaults, TokensOf(w), d.client, d.next);
      if HitsKey(TokensOf(w), d.client) {
        HitHasLine(w, d.client);
      }
    }
  }

  lemma {:induction false} NoLines()
    ensures TokensOf([]) == []
  {
  }

  lemma {:induction false} HitHasLine(w: seq<Line>, client: string)
    requires HitsKey(TokensOf(w), client)
    ensures FirstLine(w, 0, client) < |w|
  {
    hide WriterMatches, FirstLine;
    var x: nat :| FirstMatch(TokensOf(w), client, x);
    if FirstLine(w, 0, client) == |w| {
      NoMatchInLines(w, client);
    }
  }

  lemma {:induction false} NoMatchInLines(w: seq<Line>, client: string)
    requires forall k :: 0 <= k < |w| ==> !LineMatches(w[k], client)
    ensures forall k :: 0 <= k < |TokensOf(w)| ==> !WriterMatches(TokensOf(w)[k], client)
    decreases |w|
  {
    hide WriterMatches;
    if w != [] {
      assert forall k :: 0 <= k < |w| - 1 ==> w[1..][k] == w[k + 1];
      NoMatchInLines(w[1..], client);
      assert !LineMatches(w[0], client);
    }
  }

  lemma {:induction false} ApartTail(ds: seq<Edit>)
    requires ds != [] && NamesApart(ds)
    ensures NamesApart(ds[1..])
    ensures forall k :: 0 <= k < |ds[1..]| ==>
              && ds[1..][k] == ds[k + 1] && ds[1..][k].client != ds[0].client
              && !EndsWith(ds[0].client, ds[1..][k].client)
  {
    var rest := ds[1..];
    forall k | 0 <= k < |rest|
      ensures rest[k] == ds[k + 1] && rest[k].client != ds[0].client && !EndsWith(ds[0].client, rest[k].client)
    {
      var c := rest[k].client;
      assert rest[k] == ds[k + 1] && !EndsWith(ds[0].client, ds[k + 1].client);
      assert c[|c| - |c|..] == c;
    }
    forall j, k | 0 <= j < |rest| && 0 <= k < |rest| && j != k
      ensures !EndsWith(rest[j].client, rest[k].client)
    {
      assert rest[j] == ds[j + 1] && rest[k] == ds[k + 1];
    }
  }

  /** The first edit leaves the others as they were: they take effect or not as before. */
  lemma {:induction false} OthersBeside(defaults: Defaults, w: seq<Line>, e: nat, implied: set<string>, ds: seq<Edit>)
    requires ds != [] && e < |w| && Editable(defaults, w, implied, ds)
    ensures var v := InsideOne(w, e, implied, ds[0]);
            && Editable(defaults, v, implied, ds[1..])
            && forall k :: 0 <= k < |ds[1..]| ==>
                 (Takes(v, e, implied, ds[1..], k) <==> Takes(w, e, implied, ds, k + 1))
  {
    hide ImpliedOf, HitsKey, TokensOf, WriteLines, OwnMatches, NamesApart, FirstLine, EndsWith, InsertsBefore;
    var v, d, rest := InsideOne(w, e, implied, ds[0]), ds[0], ds[1..];
    ApartTail(ds);
    forall k | 0 <= k < |rest|
      ensures OwnMatches(TokensOf(v), rest[k].client)
      ensures rest[k].client in implied ==> rest[k].client in ImpliedOf(defaults, TokensOf(v))
      ensures Takes(v, e, implied, rest, k) <==> Takes(w, e, implied, ds, k + 1)
    {
      assert rest[k] == ds[k + 1];
      InsertsThen(implied, ds, k);
      if d.client !in implied {
        WriteBeside(defaults, w, e, d, rest[k].client);
      } else if e > 0 {
        InsertBeside(defaults, w, d, rest[k].client);
      }
    }
  }

  /** After the edits: every client's state is the new one where an edit takes effect, and the old one elsewhere. */
  ghost predicate Edited(before: States, after: States, w: seq<Line>, e: nat, implied: set<string>, ds: seq<Edit>) {
    && (forall k :: 0 <= k < |ds| ==>
          if Takes(w, e, implied, ds, k) then ds[k].client in after && after[ds[k].client] == ds[k].next
          else SameAt(before, after, ds[k].client))
    && (forall cl :: NoEditOf(ds, cl) ==> SameAt(before, after, cl))
  }

  ghost predicate SameAt(before: States, after: States, client: string) {
    (client in after <==> client in before) && (client in before ==> after[client] == before[client])
  }

  ghost predicate NoEditOf(ds: seq<Edit>, client: string) {
    forall k :: 0 <= k < |ds| ==> ds[k].client != client
  }

  lemma {:induction false} EditedThen(before: States, one: States, after: States, w: seq<Line>, v: seq<Line>, e: nat,
                                      implied: set<string>, ds: seq<Edit>)
    requires ds != [] && NamesApart(ds)
    requires one == if Takes(w, e, implied, ds, 0) then before[ds[0].client := ds[0].next] else before
    requires forall k :: 0 <= k < |ds[1..]| ==>
               (Takes(v, e, implied, ds[1..], k) <==> Takes(w, e, implied, ds, k + 1))
    requires Edited(one, after, v, e, implied, ds[1..])
    ensures Edited(before, after, w, e, implied, ds)
  {
    hide Takes, EndsWith, NamesApart;
    ApartTail(ds);
    assert NoEditOf(ds[1..], ds[0].client);
    forall k | 0 <= k < |ds|
      ensures if Takes(w, e, implied, ds, k) then ds[k].client in after && after[ds[k].client] == ds[k].next
              else SameAt(before, after, ds[k].client)
    {
      if k > 0 {
        assert ds[1..][k - 1] == ds[k];
        assert SameAt(before, one, ds[k].client);
      }
    }
    forall cl | NoEditOf(ds, cl)
      ensures SameAt(before, after, cl)
    {
      assert NoEditOf(ds[1..], cl);
      assert ds[0].client != cl;
    }
  }

  /**
   * Several clients have a change in one row, and all are reported as changed. What is then
   * read of the block is, for each of them, the new state if and only if its change takes
   * effect: a state that comes from a spread is overridden unless the block is on one line,
   * and a key that counts is rewritten unless the lines inserted before have moved it behind
   * the line that was the closing one. No other state changes.
   */
  lemma {:induction false} EditsRead(defaults: Defaults, w: seq<Line>, e: nat, implied: set<string>, ds: seq<Edit>)
    requires e < |w| && Editable(defaults, w, implied, ds)
    ensures Edited(StatesOf(defaults, TokensOf(w)), StatesOf(defaults, TokensOf(Inside(w, e, implied, ds))),
                   w, e, implied, ds)
    decreases |ds|
  {
    hide StatesOf, TokensOf, Takes, Editable, InsideOne, Edited;
    if ds == [] {
      NothingEdited(StatesOf(defaults, TokensOf(w)), w, e, implied);
    } else {
      var v := InsideOne(w, e, implied, ds[0]);
      OneEditReads(defaults, w, e, implied, ds);
      OthersBeside(defaults, w, e, implied, ds);
      EditsRead(defaults, v, e, implied, ds[1..]);
      assert NamesApart(ds) by { EditableApart(defaults, w, implied, ds); }
      EditedThen(StatesOf(defaults, TokensOf(w)), StatesOf(defaults, TokensOf(v)),
                 StatesOf(defaults, TokensOf(Inside(w, e, implied, ds))), w, v, e, implied, ds);
    }
  }

  lemma {:induction false} EditableApart(defaults: Defaults, w: seq<Line>, implied: set<string>, ds: seq<Edit>)
    requires Editable(defaults, w, implied, ds)
    ensures NamesApart(ds)
  {
  }

  lemma {:induction false} NothingEdited(states: States, w: seq<Line>, e: nat, implied: set<string>)
    ensures Edited(states, states, w, e, implied, [])
  {
  }
}
