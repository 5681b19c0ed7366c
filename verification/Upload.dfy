/** Adding items, one at a time and from an uploaded sheet. */
module Upload {
  import opened Models
  import opened Texts
  import opened Sums
  import opened Ledger
  import opened Records
  import opened Repositories
  import opened Conservation

  // ---- one item ---------------------------------------------------------------------------

  function ItemDraft(t: Text, name: string, size: string, quantity: int, issueDate: string, expiryDate: string,
                     id: string): Item {
    Item(id, t.trim(name), t.trim(size), quantity, t.trim(issueDate), t.trim(expiryDate))
  }

  /** Dates are checked only when both are given. */
  function ItemObjection(parse: Calendar, it: Item): Option<Error> {
    if it.name == "" then Some(NameRequired)
    else if it.size == "" then Some(SizeRequired)
    else if it.quantity <= 0 then Some(QuantityNotPositive)
    else if it.issueDate == "" || it.expiryDate == "" then None
    else if parse(it.issueDate).None? then Some(IssueDateMalformed)
    else if parse(it.expiryDate).None? then Some(ExpiryDateMalformed)
    else if parse(it.expiryDate).value <= parse(it.issueDate).value then Some(DatesOutOfOrder)
    else None
  }

  function AddedItem(parse: Calendar, items: seq<Item>, it: Item, disk: Disk): Result<seq<Item>> {
    if ItemObjection(parse, it).Some? then Failure(ItemObjection(parse, it).value) else Append(items, ItemKey, it, disk)
  }

  /** ADDING AN ITEM, from the arguments: the answer case by case. Dates are compared only when
      both are given, so an item without one of them is acceptable. */
  lemma ItemAdditionIs(t: Text, parse: Calendar, items: seq<Item>, name: string, size: string, quantity: int,
                       issueDate: string, expiryDate: string, id: string, disk: Disk)
    ensures
      var r := AddedItem(parse, items, ItemDraft(t, name, size, quantity, issueDate, expiryDate, id), disk);
      var from, upto := t.trim(issueDate), t.trim(expiryDate);
      r == (
        if t.trim(name) == "" then Failure(NameRequired)
        else if t.trim(size) == "" then Failure(SizeRequired)
        else if quantity <= 0 then Failure(QuantityNotPositive)
        else if from != "" && upto != "" && parse(from).None? then Failure(IssueDateMalformed)
        else if from != "" && upto != "" && parse(upto).None? then Failure(ExpiryDateMalformed)
        else if from != "" && upto != "" && !(parse(from).value < parse(upto).value) then Failure(DatesOutOfOrder)
        else if disk.ReadFails? then Failure(StorageFailed)
        else if exists x :: x in items && x.id == id then Failure(DuplicateId)
        else if disk.WriteFails? then Failure(StorageFailed)
        else Success(items + [Item(id, t.trim(name), t.trim(size), quantity, from, upto)]))
  {
    FindNone(items, ItemKey, id);
  }

  // ---- a sheet -----------------------------------------------------------------------------

  datatype Columns = Columns(name: nat, size: nat, quantity: nat, issueDate: nat, expiryDate: nat)

  function ValueAt(t: Text, row: seq<string>, i: nat): string { if i < |row| then t.trim(row[i]) else "" }

  datatype Cells = Cells(name: string, size: string, quantity: string, issueDate: string, expiryDate: string)
  {
    predicate Blank() { name == "" && size == "" && quantity == "" && issueDate == "" && expiryDate == "" }

    predicate Complete() { name != "" && size != "" && quantity != "" && issueDate != "" && expiryDate != "" }
  }

  function CellsOf(t: Text, row: seq<string>, c: Columns): Cells {
    Cells(ValueAt(t, row, c.name), ValueAt(t, row, c.size), ValueAt(t, row, c.quantity),
          ValueAt(t, row, c.issueDate), ValueAt(t, row, c.expiryDate))
  }

  datatype Fault = CellMissing | NotANumber | Refused(error: Error)

  datatype Verdict = Blank | Bad(fault: Fault) | Good(item: Item)

  /** What one row amounts to, taken alone. */
  function Judge(t: Text, parse: Calendar, c: Cells, id: string): Verdict {
    if c.Blank() then Blank
    else if !c.Complete() then Bad(CellMissing)
    else if Atoi64(c.quantity).None? then Bad(NotANumber)
    else
      var it := ItemDraft(t, c.name, c.size, Atoi64(c.quantity).value, c.issueDate, c.expiryDate, id);
      if ItemObjection(parse, it).Some? then Bad(Refused(ItemObjection(parse, it).value)) else Good(it)
  }

  /** What storing it makes of a verdict: the repository may still refuse the row. */
  function Store(items: seq<Item>, v: Verdict, disk: Disk): (seq<Item>, Verdict) {
    if !v.Good? then (items, v) else
    var r := Append(items, ItemKey, v.item, disk);
    if r.Success? then (r.value, v) else (items, Bad(Refused(r.error)))
  }

  /** A sheet with its columns resolved, and the fresh ID of each row. */
  datatype Sheet = Sheet(rows: seq<seq<string>>, columns: Columns, id: nat -> string)

  function RowVerdict(t: Text, parse: Calendar, sh: Sheet, i: nat): Verdict
    requires i < |sh.rows|
  {
    Judge(t, parse, CellsOf(t, sh.rows[i], sh.columns), sh.id(i))
  }

  /** The verdicts on the first n data rows; row 0 is the header. */
  function Judged(t: Text, parse: Calendar, sh: Sheet, n: nat): (vs: seq<Verdict>)
    requires n < |sh.rows|
    ensures |vs| == n
  {
    seq(n, i requires 0 <= i < n => RowVerdict(t, parse, sh, i + 1))
  }

  lemma JudgedNext(t: Text, parse: Calendar, sh: Sheet, n: nat)
    requires 1 <= n < |sh.rows|
    ensures Judged(t, parse, sh, n) == Judged(t, parse, sh, n - 1) + [RowVerdict(t, parse, sh, n)]
  {
  }

  /** The items after the rows judged so are stored one after another, and what became of
      each row. */
  function Left(items: seq<Item>, judged: seq<Verdict>, disk: nat -> Disk): seq<Item> {
    if judged == [] then items else
    var k := |judged| - 1;
    Store(Left(items, judged[..k], disk), judged[k], disk(k + 1)).0
  }

  function Outcomes(items: seq<Item>, judged: seq<Verdict>, disk: nat -> Disk): (vs: seq<Verdict>)
    ensures |vs| == |judged|
  {
    if judged == [] then [] else
    var k := |judged| - 1;
    Outcomes(items, judged[..k], disk) + [Store(Left(items, judged[..k], disk), judged[k], disk(k + 1)).1]
  }

  function Goods(vs: seq<Verdict>): seq<Item> {
    if vs == [] then [] else
    var init, v := Goods(vs[..|vs| - 1]), vs[|vs| - 1];
    if v.Good? then init + [v.item] else init
  }

  /** Row numbers, counted from one with the header, of the rejected rows. */
  function Complaints(vs: seq<Verdict>): seq<(nat, Fault)> {
    if vs == [] then [] else
    var init, v := Complaints(vs[..|vs| - 1]), vs[|vs| - 1];
    if v.Bad? then init + [(|vs| + 1, v.fault)] else init
  }

  function Blanks(vs: seq<Verdict>): nat {
    if vs == [] then 0 else Blanks(vs[..|vs| - 1]) + if vs[|vs| - 1].Blank? then 1 else 0
  }

  // ---- accounting -------------------------------------------------------------------------------

  /** UPLOAD ACCOUNTING. Every data row is blank, rejected or added, none of them twice,
      and the stored list grows by exactly the added rows, in sheet order. */
  lemma {:induction false} RowsAreAccountedFor(items: seq<Item>, judged: seq<Verdict>, disk: nat -> Disk)
    ensures Left(items, judged, disk) == items + Goods(Outcomes(items, judged, disk))
    ensures
      var vs := Outcomes(items, judged, disk);
      Blanks(vs) + |Complaints(vs)| + |Goods(vs)| == |judged|
  {
    if judged != [] {
      var k := |judged| - 1;
      RowsAreAccountedFor(items, judged[..k], disk);
      OneMoreOutcome(Outcomes(items, judged[..k], disk),
                     Store(Left(items, judged[..k], disk), judged[k], disk(k + 1)).1);
    }
  }

  lemma OneMoreOutcome(vs: seq<Verdict>, v: Verdict)
    ensures Goods(vs + [v]) == Goods(vs) + if v.Good? then [v.item] else []
    ensures |Complaints(vs + [v])| == |Complaints(vs)| + if v.Bad? then 1 else 0
    ensures Blanks(vs + [v]) == Blanks(vs) + if v.Blank? then 1 else 0
  {
    assert (vs + [v])[..|vs|] == vs;
  }

  /** STORING ONE ROW: an acceptable row is appended, or refused because the disk fails or its ID
      is taken; other rows leave the items and their verdict alone. */
  lemma StoringIs(items: seq<Item>, v: Verdict, disk: Disk)
    ensures
      Store(items, v, disk) ==
        if !v.Good? then (items, v)
        else if disk.ReadFails? then (items, Bad(Refused(StorageFailed)))
        else if exists x :: x in items && x.id == v.item.id then (items, Bad(Refused(DuplicateId)))
        else if disk.WriteFails? then (items, Bad(Refused(StorageFailed)))
        else (items + [v.item], v)
  {
    if v.Good? {
      FindNone(items, ItemKey, v.item.id);
    }
  }

  /** Storing may turn an acceptable row into a refused one, nothing else. */
  lemma {:induction false} StoringOnlyRefuses(items: seq<Item>, judged: seq<Verdict>, disk: nat -> Disk, i: nat)
    requires i < |judged|
    ensures
      var v := Outcomes(items, judged, disk)[i];
      v == judged[i] || (judged[i].Good? && v.Bad?)
  {
    var k := |judged| - 1;
    if i < k {
      StoringOnlyRefuses(items, judged[..k], disk, i);
    }
  }

  /** A cell missing from a short row, or blank, is empty. */
  ghost predicate EmptyCell(t: Text, row: seq<string>, i: nat) { |row| <= i || t.trim(row[i]) == "" }

  /** A ROW'S VERDICT, from the row: blank if all five cells are empty, incomplete if some are;
      else refused for the first of its quantity and its dates that is not in order; else an
      item of its own trimmed cells. */
  lemma RowVerdictIs(t: Text, parse: Calendar, row: seq<string>, c: Columns, id: string)
    requires TextLaws(t)
    ensures
      var name, size, qty := EmptyCell(t, row, c.name), EmptyCell(t, row, c.size), EmptyCell(t, row, c.quantity);
      var from, upto := EmptyCell(t, row, c.issueDate), EmptyCell(t, row, c.expiryDate);
      Judge(t, parse, CellsOf(t, row, c), id) ==
        if name && size && qty && from && upto then Blank
        else if name || size || qty || from || upto then Bad(CellMissing)
        else
          var q, issued, expires :=
              Atoi64(t.trim(row[c.quantity])), parse(t.trim(row[c.issueDate])), parse(t.trim(row[c.expiryDate]));
          if q.None? then Bad(NotANumber)
          else if q.value <= 0 then Bad(Refused(QuantityNotPositive))
          else if issued.None? then Bad(Refused(IssueDateMalformed))
          else if expires.None? then Bad(Refused(ExpiryDateMalformed))
          else if !(issued.value < expires.value) then Bad(Refused(DatesOutOfOrder))
          else Good(Item(id, t.trim(row[c.name]), t.trim(row[c.size]), q.value,
                         t.trim(row[c.issueDate]), t.trim(row[c.expiryDate])))
  {
    CellsAreTrimmed(t, row, c);
  }

  lemma CellsAreTrimmed(t: Text, row: seq<string>, cols: Columns)
    requires TextLaws(t)
    ensures
      var c := CellsOf(t, row, cols);
      c.Complete() ==>
        (t.trim(c.name), t.trim(c.size), t.trim(c.issueDate), t.trim(c.expiryDate))
            == (c.name, c.size, c.issueDate, c.expiryDate)
  {
  }

  /** COMPLAINTS name the sheet's own row numbers, header included, each rejected row once and
      in order. */
  lemma {:induction false} ComplaintsAreRows(vs: seq<Verdict>)
    ensures
      var out := Complaints(vs);
      && (forall n: nat, f: Fault :: (n, f) in out <==> 2 <= n < |vs| + 2 && vs[n - 2] == Bad(f))
      && (forall i, j | 0 <= i < j < |out| :: out[i].0 < out[j].0)
  {
    if vs != [] {
      var init, last := vs[..|vs| - 1], vs[|vs| - 1];
      ComplaintsAreRows(init);
      forall n: nat, f: Fault
        ensures (n, f) in Complaints(vs) <==> 2 <= n < |vs| + 2 && vs[n - 2] == Bad(f)
      {
        assert n - 2 < |init| && 2 <= n ==> vs[n - 2] == init[n - 2];
      }
      forall i | 0 <= i < |Complaints(init)| ensures Complaints(init)[i].0 < |vs| + 1 {
        assert (Complaints(init)[i].0, Complaints(init)[i].1) in Complaints(init);
      }
    }
  }

  /** The rows to be stored have IDs of their own, not yet in the list. */
  ghost predicate FreshIds(items: seq<Item>, judged: seq<Verdict>) {
    && (forall i, j | 0 <= i < j < |judged| && judged[i].Good? && judged[j].Good? ::
        judged[i].item.id != judged[j].item.id)
    && (forall i, it | 0 <= i < |judged| && judged[i].Good? && it in items :: it.id != judged[i].item.id)
  }

  lemma {:induction false} GoodsComeFromRows(judged: seq<Verdict>, it: Item)
    requires it in Goods(judged)
    ensures exists i :: 0 <= i < |judged| && judged[i] == Good(it)
  {
    var k := |judged| - 1;
    if judged[k] != Good(it) {
      GoodsComeFromRows(judged[..k], it);
    } else {
      assert judged[k] == Good(it);
    }
  }

  /** ROWS ARE JUDGED ALONE. With fresh IDs and a working disk the outcome of a row does not
      depend on the other rows. */
  lemma {:induction false} RowsAreJudgedAlone(items: seq<Item>, judged: seq<Verdict>, disk: nat -> Disk)
    requires FreshIds(items, judged) && (forall i :: disk(i).Works?)
    ensures Outcomes(items, judged, disk) == judged
    ensures Left(items, judged, disk) == items + Goods(judged)
  {
    if judged != [] {
      var k := |judged| - 1;
      var init := judged[..k];
      FreshPrefix(items, judged);
      RowsAreJudgedAlone(items, init, disk);
      assert disk(k + 1).Works?;
      FreshRowIsStored(items, judged);
      var stored := Store(Left(items, init, disk), judged[k], disk(k + 1));
      assert Left(items, judged, disk) == stored.0;
      assert Outcomes(items, judged, disk) == init + [stored.1] == judged;
    }
  }

  lemma FreshPrefix(items: seq<Item>, judged: seq<Verdict>)
    requires FreshIds(items, judged) && judged != []
    ensures FreshIds(items, judged[..|judged| - 1])
  {
  }

  lemma FreshRowIsStored(items: seq<Item>, judged: seq<Verdict>)
    requires FreshIds(items, judged) && judged != []
    ensures Store(items + Goods(judged[..|judged| - 1]), judged[|judged| - 1], Works)
        == (items + Goods(judged), judged[|judged| - 1])
  {
    var v, goods := judged[|judged| - 1], Goods(judged[..|judged| - 1]);
    if v.Good? {
      FreshIdIsFree(items, judged);
      StoredWhenFree(items + goods, v);
      assert Goods(judged) == goods + [v.item];
      assert items + goods + [v.item] == items + (goods + [v.item]);
    }
  }

  lemma StoredWhenFree(before: seq<Item>, v: Verdict)
    requires v.Good? && forall x | x in before :: x.id != v.item.id
    ensures Store(before, v, Works) == (before + [v.item], v)
  {
    FindNone(before, ItemKey, v.item.id);
    assert forall x | x in before :: ItemKey(x) != v.item.id;
  }

  lemma FreshIdIsFree(items: seq<Item>, judged: seq<Verdict>)
    requires FreshIds(items, judged) && judged != [] && judged[|judged| - 1].Good?
    ensures forall x | x in items + Goods(judged[..|judged| - 1]) :: x.id != judged[|judged| - 1].item.id
  {
    var init := judged[..|judged| - 1];
    forall x | x in Goods(init) ensures x.id != judged[|judged| - 1].item.id {
      GoodsComeFromRows(init, x);
    }
  }

  lemma GoodsArePositive(t: Text, parse: Calendar, sh: Sheet, n: nat)
    requires n < |sh.rows|
    ensures Positive(Judged(t, parse, sh, n))
  {
    var judged := Judged(t, parse, sh, n);
    forall i | 0 <= i < n && judged[i].Good? ensures 0 < judged[i].item.quantity {
      GoodIsPositive(parse, judged[i], t, CellsOf(t, sh.rows[i + 1], sh.columns), sh.id(i + 1));
    }
  }

  lemma GoodIsPositive(parse: Calendar, v: Verdict, t: Text, c: Cells, id: string)
    requires v == Judge(t, parse, c, id) && v.Good?
    ensures 0 < v.item.quantity
  {
  }

  ghost predicate Positive(judged: seq<Verdict>) {
    forall i | 0 <= i < |judged| && judged[i].Good? :: 0 < judged[i].item.quantity
  }

  /** Rows stored one after another are a run of `AddItem` steps that brings in exactly what
      was added. */
  lemma {:induction false} StoringIsARun(s: State, judged: seq<Verdict>, disk: nat -> Disk, sc: Scope)
    returns (run: seq<Action>)
    requires Positive(judged)
    ensures Run(s, run) == s.(books := s.books.(items := Left(s.books.items, judged, disk)))
    ensures forall a | a in run :: a.AddItem?
    ensures AddedIn(s, run, sc) == Sum(Goods(Outcomes(s.books.items, judged, disk)), StockW(sc))
  {
    if judged == [] {
      run := [];
    } else {
      var k := |judged| - 1;
      var init := StoringIsARun(s, judged[..k], disk, sc);
      var last := StoreIsAnAction(Run(s, init), judged[k], disk(k + 1), sc);
      RunConcat(s, init, last);
      AddedInConcat(s, init, last, sc);
      run := init + last;
      var v := Store(Left(s.books.items, judged[..k], disk), judged[k], disk(k + 1)).1;
      OneMoreOutcome(Outcomes(s.books.items, judged[..k], disk), v);
      if v.Good? {
        SumAppend(Goods(Outcomes(s.books.items, judged[..k], disk)), v.item, StockW(sc));
      }
    }
  }

  lemma StoreIsAnAction(s: State, v: Verdict, disk: Disk, sc: Scope) returns (run: seq<Action>)
    requires v.Good? ==> 0 < v.item.quantity
    ensures Run(s, run) == s.(books := s.books.(items := Store(s.books.items, v, disk).0))
    ensures forall a | a in run :: a.AddItem?
    ensures
      var stored := Store(s.books.items, v, disk).1;
      AddedIn(s, run, sc) == if stored.Good? then StockW(sc)(stored.item) else 0
  {
    if Store(s.books.items, v, disk).1.Good? {
      run := [AddItem(v.item, disk)];
      assert run[1..] == [];
      assert Run(s, run) == Next(s, run[0]);
    } else {
      run := [];
    }
  }

  lemma {:induction false} AddedInConcat(s: State, r1: seq<Action>, r2: seq<Action>, sc: Scope)
    ensures AddedIn(s, r1 + r2, sc) == AddedIn(s, r1, sc) + AddedIn(Run(s, r1), r2, sc)
    decreases r1
  {
    if r1 == [] {
      assert r1 + r2 == r2;
    } else {
      assert (r1 + r2)[1..] == r1[1..] + r2;
      AddedInConcat(Next(s, r1[0]), r1[1..], r2, sc);
    }
  }

  /** CONSERVATION COVERS UPLOADS: uploading a sheet is a run of the stock protocol, and what
      that run introduces, of each item and overall, is the sum of the added rows. */
  lemma SheetUploadIsARun(t: Text, parse: Calendar, s: State, sh: Sheet, disk: nat -> Disk, sc: Scope)
    returns (run: seq<Action>)
    requires sh.rows != []
    ensures
      var judged := Judged(t, parse, sh, |sh.rows| - 1);
      var added := Goods(Outcomes(s.books.items, judged, disk));
      && Run(s, run) == s.(books := s.books.(items := s.books.items + added))
      && Introduced(s, run, sc) == Balance(s, sc) + Sum(added, StockW(sc))
      && Balance(Run(s, run), sc) == Introduced(s, run, sc)
    ensures forall a | a in run :: a.AddItem?
  {
    var judged := Judged(t, parse, sh, |sh.rows| - 1);
    GoodsArePositive(t, parse, sh, |sh.rows| - 1);
    RowsAreAccountedFor(s.books.items, judged, disk);
    run := StoringIsARun(s, judged, disk, sc);
    StockIsConserved(s, run, sc);
  }

  // ---- the header --------------------------------------------------------------------------------

  predicate Titled(t: Text, header: seq<string>, title: string, k: nat) {
    k < |header| && t.lower(t.trim(header[k])) == title
  }

  /** Neither the spaces around a title nor its case matter. */
  lemma TitlesIgnoreSpaceAndCase(t: Text, h: string, title: string)
    requires TextLaws(t)
    ensures Titled(t, [h], title, 0) <==> Titled(t, [t.trim(h)], title, 0)
    ensures Titled(t, [h], title, 0) <==> Titled(t, [t.lower(t.trim(h))], title, 0)
  {
    assert t.Norm(t.Norm(h)) == t.Norm(h) && t.Norm(t.trim(h)) == t.Norm(h);
  }

  ghost predicate Missing(t: Text, header: seq<string>, title: string) { forall k :: !Titled(t, header, title, k) }

  ghost predicate MissesAColumn(t: Text, header: seq<string>) {
    || Missing(t, header, "name") || Missing(t, header, "size") || Missing(t, header, "quantity")
    || Missing(t, header, "issue_date") || Missing(t, header, "expiry_date")
  }

  ghost predicate LastTitled(t: Text, header: seq<string>, title: string, k: nat) {
    Titled(t, header, title, k) && forall j | k < j < |header| :: !Titled(t, header, title, j)
  }

  /** Each column is the last with its title. */
  ghost predicate ColumnsOf(t: Text, header: seq<string>, c: Columns) {
    && LastTitled(t, header, "name", c.name) && LastTitled(t, header, "size", c.size)
    && LastTitled(t, header, "quantity", c.quantity)
    && LastTitled(t, header, "issue_date", c.issueDate) && LastTitled(t, header, "expiry_date", c.expiryDate)
  }

  /** The loop over the header: the last column of every title. */
  method IndexTitles(t: Text, header: seq<string>) returns (index: map<string, nat>)
    ensures forall title | title in index :: LastTitled(t, header, title, index[title])
    ensures forall title :: title in index <==> !Missing(t, header, title)
  {
    index := map[];
    for i := 0 to |header|
      invariant forall title | title in index :: index[title] < i && Titled(t, header, title, index[title])
      invariant forall title | title in index :: forall j | index[title] < j < i :: !Titled(t, header, title, j)
      invariant forall j | 0 <= j < i :: t.Norm(header[j]) in index
    {
      index := index[t.Norm(header[i]) := i];
    }
  }

  method FindColumns(t: Text, header: seq<string>) returns (r: Option<Columns>)
    ensures r.None? <==>
              || Missing(t, header, "name") || Missing(t, header, "size") || Missing(t, header, "quantity")
              || Missing(t, header, "issue_date") || Missing(t, header, "expiry_date")
    ensures r.Some? ==>
              && LastTitled(t, header, "name", r.value.name) && LastTitled(t, header, "size", r.value.size)
              && LastTitled(t, header, "quantity", r.value.quantity)
              && LastTitled(t, header, "issue_date", r.value.issueDate)
              && LastTitled(t, header, "expiry_date", r.value.expiryDate)
  {
    var index := IndexTitles(t, header);
    if "name" in index && "size" in index && "quantity" in index && "issue_date" in index && "expiry_date" in index {
      r := Some(Columns(index["name"], index["size"], index["quantity"], index["issue_date"], index["expiry_date"]));
    } else {
      r := None;
    }
  }

  // ---- the code ---------------------------------------------------------------------------------

  class ItemsService {
    const text: Text
    const parse: Calendar
    const repo: Table<Item>

    constructor (text: Text, parse: Calendar, repo: Table<Item>)
      ensures this.text == text && this.parse == parse && this.repo == repo
    {
      this.text, this.parse, this.repo := text, parse, repo;
    }

    /** What each row's addition meets: a file that does not parse reads as a failing disk. */
    ghost function Heard(disk: nat -> Disk): nat -> Disk
      reads repo
    {
      var parses := repo.Parses();
      (n: nat) => if parses then disk(n) else ReadFails
    }

    method AddItem(name0: string, size0: string, quantity: int, issueDate0: string, expiryDate0: string,
                   id: string, disk: Disk)
      returns (r: Result<Item>)
      requires repo.Valid() && repo.codec == ItemCodec && InRange(quantity)
      modifies repo`file
      ensures
        var it := ItemDraft(text, name0, size0, quantity, issueDate0, expiryDate0, id);
        var added := AddedItem(parse, old(repo.Rows()), it, old(repo.Seen(disk)));
        if added.Success? then r == Success(it) && repo.Rows() == added.value && repo.Parses()
        else r == Failure(added.error) && repo.file == old(repo.file)
    {
      var name, size := text.trim(name0), text.trim(size0);
      var issueDate, expiryDate := text.trim(issueDate0), text.trim(expiryDate0);
      if name == "" {
        return Failure(NameRequired);
      }
      if size == "" {
        return Failure(SizeRequired);
      }
      if quantity <= 0 {
        return Failure(QuantityNotPositive);
      }
      if issueDate != "" && expiryDate != "" {
        var issueAt := parse(issueDate);
        if issueAt.None? {
          return Failure(IssueDateMalformed);
        }
        var expiryAt := parse(expiryDate);
        if expiryAt.None? {
          return Failure(ExpiryDateMalformed);
        }
        if !(issueAt.value < expiryAt.value) {
          return Failure(DatesOutOfOrder);
        }
      }
      var item := Item(id, name, size, quantity, issueDate, expiryDate);
      var e := repo.Add(item, disk);
      r := if e.Some? then Failure(e.value) else Success(item);
    }

    /** One data row of the sheet. */
    method UploadRow(sh: Sheet, i: nat, disk: Disk) returns (v: Verdict)
      requires repo.Valid() && repo.codec == ItemCodec
      requires 1 <= i < |sh.rows|
      modifies repo`file
      ensures (repo.Rows(), v) == Store(old(repo.Rows()), RowVerdict(text, parse, sh, i), old(repo.Seen(disk)))
      ensures repo.Parses() == old(repo.Parses())
    {
      var c := CellsOf(text, sh.rows[i], sh.columns);
      if c.name == "" && c.size == "" && c.quantity == "" && c.issueDate == "" && c.expiryDate == "" {
        return Blank;
      }
      if c.name == "" || c.size == "" || c.quantity == "" || c.issueDate == "" || c.expiryDate == "" {
        return Bad(CellMissing);
      }
      var qty := Atoi64(c.quantity);
      if qty.None? {
        return Bad(NotANumber);
      }
      var r := AddItem(c.name, c.size, qty.value, c.issueDate, c.expiryDate, sh.id(i), disk);
      v := if r.Failure? then Bad(Refused(r.error)) else Good(r.value);
    }

    /** The loop over the data rows. */
    method UploadRows(sh: Sheet, disk: nat -> Disk) returns (errors: seq<(nat, Fault)>, added: nat)
      requires repo.Valid() && repo.codec == ItemCodec
      requires sh.rows != []
      modifies repo`file
      ensures
        var judged := Judged(text, parse, sh, |sh.rows| - 1);
        Reported(old(repo.Rows()), judged, old(Heard(disk)), repo.Rows(), errors, added)
    {
      errors, added := [], 0;
      ghost var items, d := repo.Rows(), Heard(disk);
      ghost var judged: seq<Verdict> := [];
      for i := 1 to |sh.rows|
        invariant repo.Parses() == old(repo.Parses())
        invariant judged == Judged(text, parse, sh, i - 1)
        invariant Reported(items, judged, d, repo.Rows(), errors, added)
      {
        ghost var next := RowVerdict(text, parse, sh, i);
        JudgedNext(text, parse, sh, i);
        ReportedNext(items, judged, d, repo.Rows(), errors, added, next);
        judged := judged + [next];
        var v := UploadRow(sh, i, disk(i));
        errors := if v.Bad? then errors + [(i + 1, v.fault)] else errors;
        added := if v.Good? then added + 1 else added;
      }
    }

    /** A sheet without rows, or without one of the columns, changes nothing. */
    method UploadExcel(rows: seq<seq<string>>, id: nat -> string, disk: nat -> Disk)
      returns (r: Option<(seq<(nat, Fault)>, nat)>)
      requires repo.Valid() && repo.codec == ItemCodec
      modifies repo`file
      ensures r.None? <==> rows == [] || MissesAColumn(text, rows[0])
      ensures r.None? ==> repo.file == old(repo.file)
      ensures r.Some? ==> exists c ::
                && ColumnsOf(text, rows[0], c)
                && Reported(old(repo.Rows()), Judged(text, parse, Sheet(rows, c, id), |rows| - 1), old(Heard(disk)),
                            repo.Rows(), r.value.0, r.value.1)
    {
      if rows == [] {
        return None;
      }
      var columns := FindColumns(text, rows[0]);
      if columns.None? {
        return None;
      }
      var errors, added := UploadRows(Sheet(rows, columns.value, id), disk);
      r := Some((errors, added));
    }
  }

  /** The items left, the rows complained about and the number added, as the outcomes say. */
  ghost predicate Reported(items: seq<Item>, judged: seq<Verdict>, disk: nat -> Disk, after: seq<Item>,
                           errors: seq<(nat, Fault)>, added: nat) {
    && after == Left(items, judged, disk)
    && errors == Complaints(Outcomes(items, judged, disk)) && added == |Goods(Outcomes(items, judged, disk))|
  }

  lemma ReportedNext(items: seq<Item>, judged: seq<Verdict>, disk: nat -> Disk, after: seq<Item>,
                     errors: seq<(nat, Fault)>, added: nat, v: Verdict)
    requires Reported(items, judged, disk, after, errors, added)
    ensures
      var (after', v') := Store(after, v, disk(|judged| + 1));
      Reported(items, judged + [v], disk, after',
               if v'.Bad? then errors + [(|judged| + 2, v'.fault)] else errors,
               if v'.Good? then added + 1 else added)
  {
    var vs := Outcomes(items, judged + [v], disk);
    assert (judged + [v])[..|judged|] == judged;
    assert vs[..|judged|] == Outcomes(items, judged, disk);
  }
}
