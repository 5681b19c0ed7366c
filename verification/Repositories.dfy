/** The CSV repositories of items, users, transactions and returns. All four read
    the whole file, work on the rows in memory and write the whole file back, under
    one mutex; their common part is `Table`. */
module Repositories {
  import opened Models
  import opened Sums
  import opened Ledger
  import opened Records
  import opened Machine

  class Table<T(!new)> {
    const codec: Codec<T>
    var file: seq<seq<string>>

    ghost predicate Valid() { Faithful(codec) }

    ghost predicate Parses()
      reads this
    {
      DecodeFile(file, codec.decode).Success?
    }

    /** The rows the file holds, none if it does not parse. */
    ghost function Rows(): seq<T>
      reads this
    {
      var r := DecodeFile(file, codec.decode);
      if r.Success? then r.value else []
    }

    /** A file that does not parse is a failing read. */
    ghost function Seen(disk: Disk): Disk
      reads this
    {
      if Parses() then disk else ReadFails
    }

    constructor (codec: Codec<T>, file: seq<seq<string>>)
      requires Faithful(codec)
      ensures Valid() && this.codec == codec && this.file == file
    {
      this.codec := codec;
      this.file := file;
    }

    method ReadAll(disk: Disk) returns (r: Result<seq<T>>)
      requires Valid()
      ensures r == if Seen(disk).ReadFails? then Failure(StorageFailed) else Success(Rows())
    {
      if disk.ReadFails? {
        return Failure(StorageFailed);
      }
      if !Rectangular(file) {
        return Failure(StorageFailed);
      }
      if |file| <= 1 {
        return Success([]);
      }
      ghost var recs := file[1..];
      var out: seq<T> := [];
      for idx := 1 to |file|
        invariant DecodeRows(recs[..idx - 1], codec.decode) == Success(out)
      {
        assert recs[..idx][..idx - 1] == recs[..idx - 1] && recs[idx - 1] == file[idx];
        match codec.decode(file[idx])
        case Skipped =>
        case Malformed =>
          FailureIsFinal(recs, idx, codec.decode);
          return Failure(StorageFailed);
        case Row(row) =>
          out := out + [row];
      }
      assert recs[..|file| - 1] == recs;
      r := Success(out);
    }

    method WriteAll(rows: seq<T>, disk: Disk) returns (e: Option<Error>)
      requires Valid() && forall x | x in rows :: codec.fits(x)
      modifies `file
      ensures disk.WriteFails? ==> e == Some(StorageFailed) && file == old(file)
      ensures !disk.WriteFails? ==> e == None && Rows() == rows && Parses()
    {
      if disk.WriteFails? {
        return Some(StorageFailed);
      }
      var out := [codec.header];
      for i := 0 to |rows|
        invariant out == [codec.header] + EncodeRows(rows[..i], codec.encode)
      {
        assert rows[..i + 1][..i] == rows[..i];
        out := out + [codec.encode(rows[i])];
      }
      assert rows[..|rows|] == rows;
      WriteThenRead(rows, codec);
      file := out;
      e := None;
    }

    method List(disk: Disk) returns (r: Result<seq<T>>)
      requires Valid()
      ensures r == if Seen(disk).ReadFails? then Failure(StorageFailed) else Success(Rows())
    {
      r := ReadAll(disk);
    }

    method GetByID(id: string, disk: Disk) returns (r: Result<Option<T>>)
      requires Valid()
      ensures r == if Seen(disk).ReadFails? then Failure(StorageFailed) else Success(Find(Rows(), codec.key, id))
    {
      var all := ReadAll(disk);
      if all.Failure? {
        return Failure(all.error);
      }
      var rows := all.value;
      for i := 0 to |rows|
        invariant forall j | 0 <= j < i :: codec.key(rows[j]) != id
      {
        if codec.key(rows[i]) == id {
          IndexByIsFirst(rows, codec.key, id, i);
          return Success(Some(rows[i]));
        }
      }
      IndexByIsFirst(rows, codec.key, id, |rows|);
      r := Success(None);
    }

    method Add(row: T, disk: Disk) returns (e: Option<Error>)
      requires Valid() && codec.fits(row)
      modifies `file
      ensures
        match Append(old(Rows()), codec.key, row, old(Seen(disk)))
        case Success(rows) => e == None && Rows() == rows && Parses()
        case Failure(err) => e == Some(err) && file == old(file)
    {
      var all := ReadAll(disk);
      if all.Failure? {
        return Some(all.error);
      }
      var rows := all.value;
      ReadRowsFit(file, codec);
      for i := 0 to |rows|
        invariant forall j | 0 <= j < i :: codec.key(rows[j]) != codec.key(row)
      {
        if codec.key(rows[i]) == codec.key(row) {
          FindNone(rows, codec.key, codec.key(row));
          return Some(DuplicateId);
        }
      }
      FindNone(rows, codec.key, codec.key(row));
      e := WriteAll(rows + [row], disk);
    }
  }

  ghost predicate Fit(items: seq<Item>) { forall x | x in items :: ItemCodec.fits(x) }

  lemma ChangedRowsFit(items: seq<Item>, i: nat, n: int)
    requires Fit(items) && i < |items|
    ensures Fit(items[i := items[i].(quantity := Wrap(n))])
  {
    WrapExact(n);
  }

  /** The two stock movements, each one locked read-modify-write. */
  class ItemsRepository {
    const table: Table<Item>

    constructor (table: Table<Item>)
      ensures this.table == table
    {
      this.table := table;
    }

    method DecreaseQuantityIfEnough(itemId: string, qty: int, disk: Disk) returns (r: Result<Item>)
      requires table.Valid() && table.codec == ItemCodec && InRange(qty)
      modifies table`file
      ensures
        match Debit64(old(table.Rows()), itemId, qty, old(table.Seen(disk)))
        case Success(p) => r == Success(p.1) && table.Rows() == p.0 && table.Parses()
        case Failure(err) => r == Failure(err) && table.file == old(table.file)
    {
      var all := table.ReadAll(disk);
      if all.Failure? {
        return Failure(all.error);
      }
      var items := all.value;
      ReadRowsFit(table.file, ItemCodec);
      for i := 0 to |items|
        invariant items == old(table.Rows()) && Fit(items)
        invariant forall j | 0 <= j < i :: items[j].id != itemId
      {
        if items[i].id != itemId {
          continue;
        }
        IndexByIsFirst(items, ItemKey, itemId, i);
        if qty < 0 {
          return Failure(NegativeQuantity);
        }
        if Wrap(items[i].quantity - qty) < 0 {
          return Failure(InsufficientStock);
        }
        ChangedRowsFit(items, i, items[i].quantity - qty);
        items := items[i := items[i].(quantity := Wrap(items[i].quantity - qty))];
        var e := table.WriteAll(items, disk);
        return if e.Some? then Failure(e.value) else Success(items[i]);
      }
      IndexByIsFirst(items, ItemKey, itemId, |items|);
      r := Failure(ItemNotFound);
    }

    method IncreaseQuantity(itemId: string, qty: int, disk: Disk) returns (e: Option<Error>)
      requires table.Valid() && table.codec == ItemCodec && InRange(qty)
      modifies table`file
      ensures
        match Credit64(old(table.Rows()), itemId, qty, old(table.Seen(disk)))
        case Success(items) => e == None && table.Rows() == items && table.Parses()
        case Failure(err) => e == Some(err) && table.file == old(table.file)
    {
      if qty < 0 {
        return Some(NegativeQuantity);
      }
      var all := table.ReadAll(disk);
      if all.Failure? {
        return Some(all.error);
      }
      var items := all.value;
      ReadRowsFit(table.file, ItemCodec);
      for i := 0 to |items|
        invariant items == old(table.Rows()) && Fit(items)
        invariant forall j | 0 <= j < i :: items[j].id != itemId
      {
        if items[i].id != itemId {
          continue;
        }
        IndexByIsFirst(items, ItemKey, itemId, i);
        ChangedRowsFit(items, i, items[i].quantity + qty);
        items := items[i := items[i].(quantity := Wrap(items[i].quantity + qty))];
        assert !disk.WriteFails? ==> Credit64(old(table.Rows()), itemId, qty, disk) == Success(items);
        e := table.WriteAll(items, disk);
        return;
      }
      IndexByIsFirst(items, ItemKey, itemId, |items|);
      e := Some(ItemNotFound);
    }
  }

  method ListByTransactionID(table: Table<Return>, issueId: string, disk: Disk) returns (r: Result<seq<Return>>)
    requires table.Valid()
    ensures r == if table.Seen(disk).ReadFails? then Failure(StorageFailed)
                 else Success(ForIssue(table.Rows(), issueId))
  {
    var all := table.List(disk);
    if all.Failure? {
      return Failure(all.error);
    }
    var out: seq<Return> := [];
    for i := 0 to |all.value|
      invariant out == ForIssue(all.value[..i], issueId)
    {
      assert all.value[..i + 1][..i] == all.value[..i];
      if all.value[i].transactionId == issueId {
        out := out + [all.value[i]];
      }
    }
    assert all.value[..|all.value|] == all.value;
    r := Success(out);
  }

  /** The returns of one issue, in file order. */
  function ForIssue(rets: seq<Return>, issueId: string): seq<Return> {
    if rets == [] then [] else
    var init, r := ForIssue(rets[..|rets| - 1], issueId), rets[|rets| - 1];
    if r.transactionId == issueId then init + [r] else init
  }

  /** Listing keeps the order of the file: it goes piece by piece, and a single row is listed
      exactly when it is of that issue. */
  lemma {:induction false} ListingKeepsOrder(a: seq<Return>, b: seq<Return>, issueId: string)
    ensures ForIssue(a + b, issueId) == ForIssue(a, issueId) + ForIssue(b, issueId)
    decreases |b|
  {
    if b == [] {
      assert a + b == a;
    } else {
      var init, last := b[..|b| - 1], b[|b| - 1];
      ListingKeepsOrder(a, init, issueId);
      var listed, part := ForIssue(a, issueId), ForIssue(init, issueId);
      ghost var more := if last.transactionId == issueId then [last] else [];
      assert a + b == a + init + [last] && b == init + [last];
      ListingGrows(a + init, last, issueId);
      ListingGrows(init, last, issueId);
      assert listed + part + more == listed + (part + more);
    }
  }

  lemma ListingGrows(rets: seq<Return>, r: Return, issueId: string)
    ensures ForIssue(rets + [r], issueId) == ForIssue(rets, issueId) + if r.transactionId == issueId then [r] else []
  {
    assert (rets + [r])[..|rets|] == rets;
  }

  const ReturnQty: Return -> int := (r: Return) => r.quantityReturned

  /** Filtering and then summing is summing under the filter. */
  lemma {:induction false} ListedQuantities(rets: seq<Return>, issueId: string)
    ensures Sum(ForIssue(rets, issueId), ReturnQty) == Sum(rets, ReturnedForW(issueId))
  {
    if rets != [] {
      var init, r := rets[..|rets| - 1], rets[|rets| - 1];
      ListedQuantities(init, issueId);
      SumAppend(ForIssue(init, issueId), r, ReturnQty);
    }
  }

  lemma ListedWrapSum(rets: seq<Return>, issueId: string)
    ensures WrapSum(ForIssue(rets, issueId), ReturnQty) == WrapSum(rets, ReturnedForW(issueId))
  {
    ListedQuantities(rets, issueId);
    WrapSumIsWrappedSum(ForIssue(rets, issueId), ReturnQty);
    WrapSumIsWrappedSum(rets, ReturnedForW(issueId));
  }
}
