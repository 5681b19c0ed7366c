/** The record mapping of the CSV files: how a row is laid out as fields and read
    back. Splitting text into fields is the CSV library's business. */
module Records {
  import opened Models
  import opened Ledger

  // ---- integers in decimal -------------------------------------------------

  function Digit(d: nat): char
    requires d < 10
  {
    ('0' as int + d) as char
  }

  function Digits(n: nat): string {
    if n < 10 then [Digit(n)] else Digits(n / 10) + [Digit(n % 10)]
  }

  function ParseDigits(s: string): Option<nat> {
    if s == "" then Some(0) else
    var c := s[|s| - 1];
    match ParseDigits(s[..|s| - 1])
    case Some(v) => if '0' <= c <= '9' then Some(10 * v + (c as int - '0' as int)) else None
    case None => None
  }

  /** strconv.Itoa */
  function Itoa(n: int): string {
    if n < 0 then "-" + Digits(-n) else Digits(n)
  }

  /** strconv.Atoi on mathematical integers: an optional sign, then at least one digit. */
  function Atoi(s: string): Option<int> {
    var signed := s != "" && (s[0] == '-' || s[0] == '+');
    var body := if signed then s[1..] else s;
    if body == "" then None else
    match ParseDigits(body)
    case None => None
    case Some(v) =>
      var n: int := v;
      Some(if signed && s[0] == '-' then -n else n)
  }

  const MAX_INT := 0x7fff_ffff_ffff_ffff
  const MIN_INT := -0x8000_0000_0000_0000

  predicate InRange(n: int) { MIN_INT <= n <= MAX_INT }

  /** strconv.Atoi proper: values outside 64 bits are errors. */
  function Atoi64(s: string): (v: Option<int>)
    ensures v.Some? ==> InRange(v.value)
  {
    var v := Atoi(s);
    if v.Some? && InRange(v.value) then v else None
  }

  lemma {:induction false} ParsesIffDigits(s: string)
    ensures ParseDigits(s).Some? <==> forall i | 0 <= i < |s| :: '0' <= s[i] <= '9'
  {
    if s != "" {
      ParsesIffDigits(s[..|s| - 1]);
      assert forall i | 0 <= i < |s| - 1 :: s[..|s| - 1][i] == s[i];
    }
  }

  /** What is a number: an optional sign and then digits, at least one, and nothing else. */
  lemma NumbersAreDigits(s: string)
    ensures Atoi(s).Some? <==>
              var body := if s != "" && s[0] in {'+', '-'} then s[1..] else s;
              body != "" && forall i | 0 <= i < |body| :: '0' <= body[i] <= '9'
    ensures s != "" && s[0] !in {'+', '-'} ==> Atoi("+" + s) == Atoi(s)
  {
    ParsesIffDigits(if s != "" && s[0] in {'+', '-'} then s[1..] else s);
    assert ("+" + s)[1..] == s;
  }

  lemma {:induction false} DigitsParse(n: nat)
    ensures ParseDigits(Digits(n)) == Some(n)
    ensures |Digits(n)| >= 1 && '0' <= Digits(n)[0] <= '9'
  {
    if n >= 10 {
      DigitsParse(n / 10);
      assert Digits(n)[..|Digits(n)| - 1] == Digits(n / 10);
    } else {
      assert Digits(n)[..0] == "";
    }
  }

  lemma SignedDigits(d: string, v: int)
    requires d != "" && d[0] != '-' && d[0] != '+' && ParseDigits(d).Some? && ParseDigits(d).value == v
    ensures Atoi(d) == Some(v) && Atoi("-" + d) == Some(-v)
  {
    assert ("-" + d)[1..] == d;
  }

  lemma DecimalRoundTrip(n: int)
    ensures Atoi(Itoa(n)) == Some(n)
  {
    var m: nat := if n < 0 then -n else n;
    DigitsParse(m);
    SignedDigits(Digits(m), m);
  }

  /** Every integer survives being printed and parsed, and the code's parser takes exactly
      the 64-bit ones. */
  lemma IntegersRoundTrip(n: int)
    ensures Atoi(Itoa(n)) == Some(n)
    ensures Atoi64(Itoa(n)) == if InRange(n) then Some(n) else None
  {
    DecimalRoundTrip(n);
  }

  // ---- rows -----------------------------------------------------------------

  /** Short records are skipped; a malformed number fails the whole read. */
  datatype Parsed<+T> = Skipped | Malformed | Row(row: T)

  /** `fits` is the range of the row type: its integers are 64-bit. */
  datatype Codec<!T> = Codec(
    key: T -> string, header: seq<string>, fits: T -> bool,
    encode: T -> seq<string>, decode: seq<string> -> Parsed<T>)

  function EncodeItem(it: Item): seq<string> {
    [it.id, it.name, it.size, Itoa(it.quantity), it.issueDate, it.expiryDate]
  }

  function DecodeItem(rec: seq<string>): Parsed<Item> {
    if |rec| < 4 then Skipped else
    match Atoi64(rec[3])
    case None => Malformed
    case Some(q) =>
      if |rec| >= 6 then Row(Item(rec[0], rec[1], rec[2], q, rec[4], rec[5]))
      else Row(Item(rec[0], rec[1], rec[2], q, "", ""))
  }

  function EncodeIssue(tx: Transaction): seq<string> {
    [tx.id, tx.itemId, tx.itemName, Itoa(tx.quantity), tx.issuedToUserId, tx.issuedByUserId, tx.departmentId,
     tx.timestamp]
  }

  function DecodeIssue(rec: seq<string>): Parsed<Transaction> {
    if |rec| < 8 then Skipped else
    match Atoi64(rec[3])
    case None => Malformed
    case Some(q) => Row(Transaction(rec[0], rec[1], rec[2], q, rec[4], rec[5], rec[6], rec[7]))
  }

  function EncodeReturn(r: Return): seq<string> {
    [r.id, r.transactionId, r.itemId, Itoa(r.quantityReturned), r.returnedByUserId, r.receivedByUserId,
     r.departmentId, r.timestamp]
  }

  function DecodeReturn(rec: seq<string>): Parsed<Return> {
    if |rec| < 8 then Skipped else
    match Atoi64(rec[3])
    case None => Malformed
    case Some(q) => Row(Return(rec[0], rec[1], rec[2], q, rec[4], rec[5], rec[6], rec[7]))
  }

  function EncodeUser(u: User): seq<string> {
    [u.id, u.employeeId, u.name, u.departmentId, u.role]
  }

  /** Four fields are the old layout, without an employee ID. */
  function DecodeUser(rec: seq<string>): Parsed<User> {
    if |rec| < 4 then Skipped
    else if |rec| >= 5 then Row(User(rec[0], rec[1], rec[2], rec[3], rec[4]))
    else Row(User(rec[0], "", rec[1], rec[2], rec[3]))
  }

  const ItemCodec :=
    Codec(ItemKey, ["id", "name", "size", "quantity", "issue_date", "expiry_date"],
          (it: Item) => InRange(it.quantity), EncodeItem, DecodeItem)
  const UserCodec :=
    Codec(UserKey, ["id", "employee_id", "name", "department_id", "role"], (u: User) => true, EncodeUser, DecodeUser)
  const IssueCodec :=
    Codec(IssueKey,
          ["id", "item_id", "item_name", "quantity",
           "issued_to_user_id", "issued_by_user_id", "department_id", "timestamp"],
          (tx: Transaction) => InRange(tx.quantity), EncodeIssue, DecodeIssue)
  const ReturnCodec :=
    Codec(ReturnKey,
          ["id", "transaction_id", "item_id", "quantity_returned",
           "returned_by_user_id", "received_by_user_id", "department_id", "timestamp"],
          (r: Return) => InRange(r.quantityReturned), EncodeReturn, DecodeReturn)

  // ---- the layouts -------------------------------------------------------------

  /** The field under that title. */
  ghost predicate Under(header: seq<string>, rec: seq<string>, title: string, value: string) {
    |rec| == |header| && exists k :: 0 <= k < |header| && header[k] == title && rec[k] == value
  }

  /** WRITTEN LAYOUT: every field stands under its own title. */
  lemma FieldsUnderTitles(it: Item, u: User, tx: Transaction, r: Return)
    ensures
      var h, rec := ItemCodec.header, EncodeItem(it);
      && Under(h, rec, "id", it.id) && Under(h, rec, "name", it.name) && Under(h, rec, "size", it.size)
      && Under(h, rec, "quantity", Itoa(it.quantity))
      && Under(h, rec, "issue_date", it.issueDate) && Under(h, rec, "expiry_date", it.expiryDate)
    ensures
      var h, rec := UserCodec.header, EncodeUser(u);
      && Under(h, rec, "id", u.id) && Under(h, rec, "employee_id", u.employeeId) && Under(h, rec, "name", u.name)
      && Under(h, rec, "department_id", u.departmentId) && Under(h, rec, "role", u.role)
    ensures
      var h, rec := IssueCodec.header, EncodeIssue(tx);
      && Under(h, rec, "id", tx.id) && Under(h, rec, "item_id", tx.itemId) && Under(h, rec, "item_name", tx.itemName)
      && Under(h, rec, "quantity", Itoa(tx.quantity))
      && Under(h, rec, "issued_to_user_id", tx.issuedToUserId) && Under(h, rec, "issued_by_user_id", tx.issuedByUserId)
      && Under(h, rec, "department_id", tx.departmentId) && Under(h, rec, "timestamp", tx.timestamp)
    ensures
      var h, rec := ReturnCodec.header, EncodeReturn(r);
      && Under(h, rec, "id", r.id) && Under(h, rec, "transaction_id", r.transactionId)
           && Under(h, rec, "item_id", r.itemId)
      && Under(h, rec, "quantity_returned", Itoa(r.quantityReturned))
      && Under(h, rec, "returned_by_user_id", r.returnedByUserId)
      && Under(h, rec, "received_by_user_id", r.receivedByUserId)
      && Under(h, rec, "department_id", r.departmentId) && Under(h, rec, "timestamp", r.timestamp)
  {
    AllUnderTitles(ItemCodec.header, EncodeItem(it));
    AllUnderTitles(UserCodec.header, EncodeUser(u));
    AllUnderTitles(IssueCodec.header, EncodeIssue(tx));
    AllUnderTitles(ReturnCodec.header, EncodeReturn(r));
  }

  lemma AllUnderTitles(header: seq<string>, rec: seq<string>)
    requires |rec| == |header| <= 10
    ensures 0 < |rec| ==> Under(header, rec, header[0], rec[0])
    ensures 1 < |rec| ==> Under(header, rec, header[1], rec[1])
    ensures 2 < |rec| ==> Under(header, rec, header[2], rec[2])
    ensures 3 < |rec| ==> Under(header, rec, header[3], rec[3])
    ensures 4 < |rec| ==> Under(header, rec, header[4], rec[4])
    ensures 5 < |rec| ==> Under(header, rec, header[5], rec[5])
    ensures 6 < |rec| ==> Under(header, rec, header[6], rec[6])
    ensures 7 < |rec| ==> Under(header, rec, header[7], rec[7])
    ensures 8 < |rec| ==> Under(header, rec, header[8], rec[8])
    ensures 9 < |rec| ==> Under(header, rec, header[9], rec[9])
  {
  }

  /** OLD LAYOUTS: a user record of four fields has no employee number, an item record of four
      or five fields no dates. */
  lemma OldLayouts(id: string, name: string, department: string, role: string, size: string, qty: int, extra: string)
    requires InRange(qty)
    ensures DecodeUser([id, name, department, role]) == Row(User(id, "", name, department, role))
    ensures DecodeItem([id, name, size, Itoa(qty)]) == Row(Item(id, name, size, qty, "", ""))
    ensures DecodeItem([id, name, size, Itoa(qty), extra]) == Row(Item(id, name, size, qty, "", ""))
  {
    IntegersRoundTrip(qty);
  }

  /** What is too short, and what is malformed. */
  lemma SkippedAndMalformed(rec: seq<string>)
    ensures (DecodeItem(rec).Skipped? <==> |rec| < 4) && (DecodeUser(rec).Skipped? <==> |rec| < 4)
    ensures (DecodeIssue(rec).Skipped? <==> |rec| < 8) && (DecodeReturn(rec).Skipped? <==> |rec| < 8)
    ensures !DecodeUser(rec).Malformed?
    ensures DecodeItem(rec).Malformed? <==> 4 <= |rec| && Atoi64(rec[3]).None?
    ensures DecodeIssue(rec).Malformed? <==> 8 <= |rec| && Atoi64(rec[3]).None?
    ensures DecodeReturn(rec).Malformed? <==> 8 <= |rec| && Atoi64(rec[3]).None?
  {
  }

  /** Numbers are written in base ten, without sign or leading zero. */
  lemma DecimalIsPositional(n: nat, d: nat)
    requires d < 10
    ensures Itoa(d) == ["0123456789"[d]]
    ensures 0 < n ==> Itoa(10 * n + d) == Itoa(n) + ["0123456789"[d]]
    ensures 0 < n ==> var negative: int := 0 - (n as int); Itoa(negative) == "-" + Itoa(n)
  {
    assert (10 * n + d) / 10 == n && (10 * n + d) % 10 == d;
  }

  // ---- whole files ------------------------------------------------------------

  function DecodeRows<T>(recs: seq<seq<string>>, decode: seq<string> -> Parsed<T>): Result<seq<T>> {
    if recs == [] then Success([]) else
    match DecodeRows(recs[..|recs| - 1], decode)
    case Failure(e) => Failure(e)
    case Success(rows) =>
      match decode(recs[|recs| - 1])
      case Skipped => Success(rows)
      case Malformed => Failure(StorageFailed)
      case Row(x) => Success(rows + [x])
  }

  /** The CSV reader takes the field count from the first record and fails on any other. */
  predicate Rectangular(file: seq<seq<string>>) {
    forall i | 0 <= i < |file| :: |file[i]| == |file[0]|
  }

  /** The rows of a file, whose first record is the header. */
  function DecodeFile<T>(file: seq<seq<string>>, decode: seq<string> -> Parsed<T>): Result<seq<T>> {
    if !Rectangular(file) then Failure(StorageFailed)
    else if |file| <= 1 then Success([])
    else DecodeRows(file[1..], decode)
  }

  function EncodeRows<T>(rows: seq<T>, encode: T -> seq<string>): (recs: seq<seq<string>>)
    ensures |recs| == |rows|
    ensures forall i | 0 <= i < |rows| :: recs[i] == encode(rows[i])
  {
    if rows == [] then [] else EncodeRows(rows[..|rows| - 1], encode) + [encode(rows[|rows| - 1])]
  }

  function MapRows<T>(rows: seq<T>, f: T -> T): (out: seq<T>)
    ensures |out| == |rows|
    ensures forall i | 0 <= i < |rows| :: out[i] == f(rows[i])
  {
    seq(|rows|, i requires 0 <= i < |rows| => f(rows[i]))
  }

  lemma {:induction false} RowsRoundTrip<T>(rows: seq<T>, encode: T -> seq<string>, decode: seq<string> -> Parsed<T>,
                                            stored: T -> T)
    requires forall x | x in rows :: decode(encode(x)) == Row(stored(x))
    ensures DecodeRows(EncodeRows(rows, encode), decode) == Success(MapRows(rows, stored))
    decreases |rows|
  {
    if rows == [] {
      assert MapRows(rows, stored) == [];
    } else {
      var init, last := rows[..|rows| - 1], rows[|rows| - 1];
      RowsRoundTrip(init, encode, decode, stored);
      assert EncodeRows(rows, encode)[..|rows| - 1] == EncodeRows(init, encode);
      assert decode(encode(last)) == Row(stored(last));
      assert MapRows(rows, stored) == MapRows(init, stored) + [stored(last)];
    }
  }

  /** Reading what was written gives, row by row, what one row becomes by being
      written and read. */
  lemma FileRoundTrip<T>(rows: seq<T>, header: seq<string>, encode: T -> seq<string>,
                         decode: seq<string> -> Parsed<T>, stored: T -> T)
    requires forall x | x in rows :: decode(encode(x)) == Row(stored(x)) && |encode(x)| == |header|
    ensures DecodeFile([header] + EncodeRows(rows, encode), decode) == Success(MapRows(rows, stored))
  {
    var recs := EncodeRows(rows, encode);
    var file := [header] + recs;
    RowsRoundTrip(rows, encode, decode, stored);
    assert file[1..] == recs;
    forall i | 0 <= i < |file| ensures |file[i]| == |header| {
      assert i > 0 ==> file[i] == encode(rows[i - 1]) && rows[i - 1] in rows;
    }
  }

  ghost predicate Faithful<T(!new)>(c: Codec<T>) {
    && (forall x | c.fits(x) :: c.decode(c.encode(x)) == Row(x))
    && (forall x :: |c.encode(x)| == |c.header|)
    && (forall rec | c.decode(rec).Row? :: c.fits(c.decode(rec).row))
  }

  lemma ItemRoundTrip(it: Item)
    requires InRange(it.quantity)
    ensures DecodeItem(EncodeItem(it)) == Row(it)
  {
    IntegersRoundTrip(it.quantity);
  }

  lemma IssueRoundTrip(tx: Transaction)
    requires InRange(tx.quantity)
    ensures DecodeIssue(EncodeIssue(tx)) == Row(tx)
  {
    IntegersRoundTrip(tx.quantity);
  }

  lemma ReturnRoundTrip(r: Return)
    requires InRange(r.quantityReturned)
    ensures DecodeReturn(EncodeReturn(r)) == Row(r)
  {
    IntegersRoundTrip(r.quantityReturned);
  }

  /** PERSISTENCE: items, users, issues and returns come back exactly as written,
      whatever their fields hold, and whatever is read is in range. */
  lemma StockCodecsAreFaithful()
    ensures Faithful(ItemCodec) && Faithful(UserCodec) && Faithful(IssueCodec) && Faithful(ReturnCodec)
  {
    forall it | ItemCodec.fits(it) ensures ItemCodec.decode(ItemCodec.encode(it)) == Row(it) {
      ItemRoundTrip(it);
    }
    forall tx | IssueCodec.fits(tx) ensures IssueCodec.decode(IssueCodec.encode(tx)) == Row(tx) {
      IssueRoundTrip(tx);
    }
    forall r | ReturnCodec.fits(r) ensures ReturnCodec.decode(ReturnCodec.encode(r)) == Row(r) {
      ReturnRoundTrip(r);
    }
  }

  lemma WriteThenRead<T(!new)>(rows: seq<T>, c: Codec<T>)
    requires Faithful(c) && forall x | x in rows :: c.fits(x)
    ensures DecodeFile([c.header] + EncodeRows(rows, c.encode), c.decode) == Success(rows)
  {
    FileRoundTrip(rows, c.header, c.encode, c.decode, (x: T) => x);
    assert MapRows(rows, (x: T) => x) == rows;
  }

  /** Reading is stable: rewriting a file in the current layout, old four-field
      user rows and short item rows included, changes nothing that is read from it. */
  lemma RewritingPreservesRows<T(!new)>(file: seq<seq<string>>, c: Codec<T>)
    requires Faithful(c) && DecodeFile(file, c.decode).Success?
    ensures DecodeFile([c.header] + EncodeRows(DecodeFile(file, c.decode).value, c.encode), c.decode)
        == DecodeFile(file, c.decode)
  {
    ReadRowsFit(file, c);
    WriteThenRead(DecodeFile(file, c.decode).value, c);
  }

  lemma ReadRowsFit<T(!new)>(file: seq<seq<string>>, c: Codec<T>)
    requires Faithful(c) && DecodeFile(file, c.decode).Success?
    ensures forall x | x in DecodeFile(file, c.decode).value :: c.fits(x)
  {
    if |file| > 1 {
      DecodedRowsFit(file[1..], c);
    }
  }

  lemma {:induction false} DecodedRowsFit<T(!new)>(recs: seq<seq<string>>, c: Codec<T>)
    requires Faithful(c) && DecodeRows(recs, c.decode).Success?
    ensures forall x | x in DecodeRows(recs, c.decode).value :: c.fits(x)
  {
    if recs != [] {
      DecodedRowsFit(recs[..|recs| - 1], c);
    }
  }

  /** READING, record by record: it fails exactly when field counts differ or a record is
      malformed, and where no record is too short row i is that of record i + 1. */
  lemma ReadIs<T>(file: seq<seq<string>>, decode: seq<string> -> Parsed<T>)
    ensures DecodeFile(file, decode).Failure?
       <==> !Rectangular(file) || exists i :: 1 <= i < |file| && decode(file[i]).Malformed?
    ensures DecodeFile(file, decode).Success? && (forall i | 1 <= i < |file| :: decode(file[i]).Row?) ==>
              var rows := DecodeFile(file, decode).value;
              && |rows| == (if file == [] then 0 else |file| - 1)
              && forall i | 0 <= i < |rows| :: decode(file[i + 1]) == Row(rows[i])
  {
    if |file| > 1 {
      RowsAre(file[1..], decode);
      assert forall i | 1 <= i < |file| :: file[i] == file[1..][i - 1];
      if i :| 0 <= i < |file[1..]| && decode(file[1..][i]).Malformed? {
        assert decode(file[i + 1]).Malformed?;
      }
    }
  }

  lemma {:induction false} RowsAre<T>(recs: seq<seq<string>>, decode: seq<string> -> Parsed<T>)
    ensures DecodeRows(recs, decode).Failure? <==> exists i :: 0 <= i < |recs| && decode(recs[i]).Malformed?
    ensures DecodeRows(recs, decode).Success? && (forall i | 0 <= i < |recs| :: decode(recs[i]).Row?) ==>
              var rows := DecodeRows(recs, decode).value;
              |rows| == |recs| && forall i | 0 <= i < |recs| :: decode(recs[i]) == Row(rows[i])
  {
    if recs != [] {
      RowsAre(recs[..|recs| - 1], decode);
      if i :| 0 <= i < |recs| && decode(recs[i]).Malformed? {
        assert i == |recs| - 1 || decode(recs[..|recs| - 1][i]).Malformed?;
      }
    }
  }

  /** Whether a record is too short is decided by its field count. */
  ghost predicate WidthDecides<T>(decode: seq<string> -> Parsed<T>) {
    forall a, b | |a| == |b| :: decode(a).Skipped? <==> decode(b).Skipped?
  }

  lemma StockWidthsDecide()
    ensures WidthDecides(DecodeItem) && WidthDecides(DecodeUser) && WidthDecides(DecodeIssue)
        && WidthDecides(DecodeReturn)
  {
  }

  /** SHORT RECORDS are never skipped from among full ones: a file that can be read at all
      yields a row for every record after the header, or none. */
  lemma ReadsAllOrNothing<T>(file: seq<seq<string>>, decode: seq<string> -> Parsed<T>)
    requires WidthDecides(decode) && DecodeFile(file, decode).Success? && file != []
    ensures |DecodeFile(file, decode).value| in {0, |file| - 1}
  {
    if |file| > 1 {
      RowsAllOrNothing(file[1..], decode, |file[0]|);
    }
  }

  lemma {:induction false} RowsAllOrNothing<T>(recs: seq<seq<string>>, decode: seq<string> -> Parsed<T>, width: nat)
    requires WidthDecides(decode) && DecodeRows(recs, decode).Success?
    requires forall i | 0 <= i < |recs| :: |recs[i]| == width
    ensures
      var n := |DecodeRows(recs, decode).value|;
      n == if recs != [] && !decode(recs[0]).Skipped? then |recs| else 0
  {
    if recs != [] {
      RowsAllOrNothing(recs[..|recs| - 1], decode, width);
    }
  }

  lemma {:induction false} FailureIsFinal<T>(recs: seq<seq<string>>, n: nat, decode: seq<string> -> Parsed<T>)
    requires n <= |recs| && DecodeRows(recs[..n], decode).Failure?
    ensures DecodeRows(recs, decode) == Failure(StorageFailed)
    decreases |recs|
  {
    if n == |recs| {
      assert recs[..n] == recs;
      FailureIsStorage(recs, decode);
    } else {
      assert recs[..|recs| - 1][..n] == recs[..n];
      FailureIsFinal(recs[..|recs| - 1], n, decode);
    }
  }

  lemma {:induction false} FailureIsStorage<T>(recs: seq<seq<string>>, decode: seq<string> -> Parsed<T>)
    requires DecodeRows(recs, decode).Failure?
    ensures DecodeRows(recs, decode) == Failure(StorageFailed)
  {
    if recs != [] && DecodeRows(recs[..|recs| - 1], decode).Failure? {
      FailureIsStorage(recs[..|recs| - 1], decode);
    }
  }
}
