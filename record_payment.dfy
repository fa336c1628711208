/** The record-payment dialog: the cash denomination table and its total,
    the expected total `amount + late fee - discount`, the input clamps on
    amount and discount, the state updates of the denomination table, the
    submit check and the data it submits, and the rows of 500-note serial
    inputs. */
module RecordPayment {
  import opened Common
  import opened Text
  import opened Seqs

  /** The notes the dialog accepts, in the order the table lists them. */
  const DenominationValues: seq<int> := [500, 200, 100, 50, 20, 10]

  /** The only note whose serial numbers are recorded. */
  const SerialNote: int := 500

  datatype PaymentMethod = CASH | CARD | UPI | BANK_TRANSFER | CHEQUE

  /** One row of the denomination table: the note, the count as typed (a
      string of digits) and, for the 500 note, one serial per note. */
  datatype Denomination = Denomination(value: int, count: string, serials: seq<string>)

  /** A denomination as submitted: the count parsed to an integer. */
  datatype CashNote = CashNote(value: int, count: int, serials: seq<string>)

  datatype ChequeDetails = ChequeDetails(chequeNumber: string, bankName: string)

  /** The payment form. `amount` is kept as the string the form holds;
      `chequeNumber`, `bankName` and `denominations` are absent until the
      submit handler merges them in. */
  datatype PaymentData = PaymentData(
    studentId: string,
    amount: string,
    paymentDate: string,
    paymentMethod: PaymentMethod,
    transactionId: string,
    notes: string,
    lateFee: real,
    discount: int,
    chequeNumber: Option<string>,
    bankName: Option<string>,
    denominations: Option<seq<CashNote>>
  )

  datatype SubmitOutcome =
    | Rejected(cashTotal: int, expected: real)
    | Submitted(data: PaymentData)

  // ---------------------------------------------------------------------
  // The denomination table

  function Values(ds: seq<Denomination>): (vs: seq<int>)
    ensures |vs| == |ds| && forall i :: 0 <= i < |ds| ==> vs[i] == ds[i].value
  {
    if ds == [] then [] else [ds[0].value] + Values(ds[1..])
  }

  /** The shape every state of the table keeps: one row per note in the
      fixed order, and serials only on the 500 row. */
  predicate WellFormed(ds: seq<Denomination>) {
    Values(ds) == DenominationValues
    && forall i :: 0 <= i < |ds| ==> ds[i].value != SerialNote ==> ds[i].serials == []
  }

  /** The table when the dialog opens or the amounts change: every count
      empty, one empty serial slot on the 500 row. */
  function InitialDenominations(): seq<Denomination> {
    seq(|DenominationValues|, i requires 0 <= i < |DenominationValues| =>
      Denomination(DenominationValues[i], "", if DenominationValues[i] == SerialNote then [""] else []))
  }

  lemma InitialShape()
    ensures WellFormed(InitialDenominations())
    ensures forall i :: 0 <= i < |InitialDenominations()| ==> InitialDenominations()[i].count == ""
    ensures InitialDenominations()[0].serials == [""]
    ensures CashTotal(InitialDenominations()) == 0
  {
    var ds := InitialDenominations();
    assert Values(ds) == DenominationValues;
    ZeroCountsTotal(ds);
  }

  /** `parseInt(d.count, 10) || 0`. */
  function Count(d: Denomination): nat {
    ParseIntOrZero(d.count)
  }

  /** The sum of count times value over the table; an empty or unparsable
      count adds nothing. */
  function CashTotal(ds: seq<Denomination>): int {
    if ds == [] then 0 else Count(ds[0]) * ds[0].value + CashTotal(ds[1..])
  }

  lemma {:induction false} ZeroCountsTotal(ds: seq<Denomination>)
    requires forall i :: 0 <= i < |ds| ==> ds[i].count == ""
    ensures CashTotal(ds) == 0
  {
    if ds != [] {
      ZeroCountsTotal(ds[1..]);
    }
  }

  /** `parseInt(paymentData.amount, 10) || 0`; also what `amount || 0`
      compares as a number, for the digit strings and integer strings the
      form holds. */
  function AmountValue(amount: string): int {
    ParseInt(amount).GetOr(0)
  }

  /** `(parseInt(amount) || 0) + (parseFloat(late_fee) || 0) - (parseInt(discount) || 0)`. */
  function ExpectedCashTotal(p: PaymentData): real {
    AmountValue(p.amount) as real + p.lateFee - p.discount as real
  }

  // ---------------------------------------------------------------------
  // Updates of the table

  /** `Array.from({ length: n }, (_, i) => serials[i] || "")`. */
  function ResizeSerials(serials: seq<string>, n: nat): (r: seq<string>)
    ensures |r| == n
    ensures forall j :: 0 <= j < n ==> r[j] == if j < |serials| then serials[j] else ""
  {
    seq(n, j requires 0 <= j < n => if j < |serials| then serials[j] else "")
  }

  /** `handleDenominationChange(idx, count)`. */
  function DenominationChange(ds: seq<Denomination>, idx: int, count: string): (r: seq<Denomination>)
    ensures |r| == |ds|
    ensures forall i :: 0 <= i < |ds| && i != idx ==> r[i] == ds[i]
    ensures 0 <= idx < |ds| ==> r[idx].value == ds[idx].value && r[idx].count == count
    ensures 0 <= idx < |ds| && ds[idx].value == SerialNote ==>
      |r[idx].serials| == ParseIntOrZero(count)
      && forall j :: 0 <= j < |r[idx].serials| ==>
           r[idx].serials[j] == if j < |ds[idx].serials| then ds[idx].serials[j] else ""
    ensures 0 <= idx < |ds| && ds[idx].value != SerialNote ==> r[idx].serials == []
  {
    seq(|ds|, i requires 0 <= i < |ds| =>
      if i == idx then
        ds[i].(count := count,
               serials := if ds[i].value == SerialNote then ResizeSerials(ds[i].serials, ParseIntOrZero(count)) else [])
      else ds[i])
  }

  /** `handleSerialChange(denIdx, serialIdx, serial)`. */
  function SerialChange(ds: seq<Denomination>, denIdx: int, serialIdx: int, serial: string): (r: seq<Denomination>)
    ensures |r| == |ds|
    ensures forall i :: 0 <= i < |ds| && i != denIdx ==> r[i] == ds[i]
    ensures 0 <= denIdx < |ds| ==>
      r[denIdx].value == ds[denIdx].value && r[denIdx].count == ds[denIdx].count
      && |r[denIdx].serials| == |ds[denIdx].serials|
      && forall j :: 0 <= j < |ds[denIdx].serials| ==>
           r[denIdx].serials[j] == if j == serialIdx then Upper(serial) else ds[denIdx].serials[j]
  {
    seq(|ds|, i requires 0 <= i < |ds| =>
      if i == denIdx then
        ds[i].(serials := seq(|ds[i].serials|, j requires 0 <= j < |ds[i].serials| =>
                          if j == serialIdx then Upper(serial) else ds[i].serials[j]))
      else ds[i])
  }

  /** Both updates keep the table's shape. */
  lemma UpdatesKeepShape(ds: seq<Denomination>, idx: int, count: string, serialIdx: int, serial: string)
    requires WellFormed(ds)
    ensures WellFormed(DenominationChange(ds, idx, count))
    ensures WellFormed(SerialChange(ds, idx, serialIdx, serial))
  {
    var r1 := DenominationChange(ds, idx, count);
    var r2 := SerialChange(ds, idx, serialIdx, serial);
    assert Values(r1) == Values(ds);
    assert Values(r2) == Values(ds);
  }

  /** Replacing one row changes the cash total by that row's difference. */
  lemma {:induction false} CashTotalUpdate(ds: seq<Denomination>, idx: int, d: Denomination)
    requires 0 <= idx < |ds|
    ensures CashTotal(ds[idx := d]) == CashTotal(ds) - Count(ds[idx]) * ds[idx].value + Count(d) * d.value
  {
    if idx > 0 {
      assert ds[idx := d][1..] == ds[1..][idx - 1 := d];
      CashTotalUpdate(ds[1..], idx - 1, d);
    } else {
      assert ds[idx := d][1..] == ds[1..];
    }
  }

  /** Changing one count moves the cash total by the difference in notes
      times the note's value. */
  lemma ChangeMovesTotal(ds: seq<Denomination>, idx: int, count: string)
    requires 0 <= idx < |ds|
    ensures CashTotal(DenominationChange(ds, idx, count))
         == CashTotal(ds) - Count(ds[idx]) * ds[idx].value + ParseIntOrZero(count) * ds[idx].value
  {
    var r := DenominationChange(ds, idx, count);
    assert r == ds[idx := r[idx]];
    CashTotalUpdate(ds, idx, r[idx]);
  }

  /** Serial edits leave the cash total alone. */
  lemma {:induction false} SerialChangeKeepsTotal(ds: seq<Denomination>, denIdx: int, serialIdx: int, serial: string)
    ensures CashTotal(SerialChange(ds, denIdx, serialIdx, serial)) == CashTotal(ds)
  {
    if ds != [] {
      var r := SerialChange(ds, denIdx, serialIdx, serial);
      SerialChangeKeepsTotal(ds[1..], denIdx - 1, serialIdx, serial);
      assert r[1..] == SerialChange(ds[1..], denIdx - 1, serialIdx, serial);
    }
  }

  // ---------------------------------------------------------------------
  // Input clamps

  /** The amount field's handler: non-digits are removed, and a value above
      the balance is replaced by the balance. The amount the form then holds
      is the smaller of the digits typed and the balance, so never above the
      balance. */
  function ClampAmount(input: string, balance: int): (amount: string)
    ensures AmountValue(amount) == Min(DecimalValue(DigitsOnly(input)), balance)
    ensures AmountValue(amount) <= balance
    ensures DecimalValue(DigitsOnly(input)) <= balance ==> amount == DigitsOnly(input)
  {
    var value := DigitsOnly(input);
    ParseIntToString(balance);
    if DecimalValue(value) > balance then IntToString(balance)
    else
      assert value != [] ==> ParseInt(value) == Some(DecimalValue(value) as int);
      value
  }

  /** The discount field's handler: non-digits removed, parsed, and capped at
      the smaller of the balance and the amount. */
  function ClampDiscount(input: string, balance: int, amount: string): (discount: int)
    ensures discount <= balance && discount <= AmountValue(amount)
    ensures ParseIntOrZero(DigitsOnly(input)) <= Min(balance, AmountValue(amount))
            ==> discount == ParseIntOrZero(DigitsOnly(input))
    ensures ParseIntOrZero(DigitsOnly(input)) > Min(balance, AmountValue(amount))
            ==> discount == Min(balance, AmountValue(amount))
  {
    var intValue := ParseIntOrZero(DigitsOnly(input));
    var maxDiscount := Min(balance, AmountValue(amount));
    if intValue > maxDiscount then maxDiscount else intValue
  }

  function Min(a: int, b: int): int {
    if a < b then a else b
  }

  /** With a clamped discount and a non-negative amount, the expected cash
      total is at least the late fee: the discount never eats into it. */
  lemma ClampedDiscountKeepsLateFee(p: PaymentData, input: string, balance: int)
    requires AmountValue(p.amount) >= 0
    requires p.discount == ClampDiscount(input, balance, p.amount)
    ensures ExpectedCashTotal(p) >= p.lateFee
  {
    if ParseIntOrZero(DigitsOnly(input)) > Min(balance, AmountValue(p.amount)) {
      assert p.discount <= AmountValue(p.amount);
    }
  }

  // ---------------------------------------------------------------------
  // Submitting

  /** The submit filter `d.count && parseInt(d.count)`. */
  predicate HasCount(d: Denomination) {
    Count(d) > 0
  }

  function ToNote(d: Denomination): CashNote {
    CashNote(d.value, Count(d), d.serials)
  }

  function NotesTotal(ns: seq<CashNote>): int {
    if ns == [] then 0 else ns[0].count * ns[0].value + NotesTotal(ns[1..])
  }

  function NoteValues(ns: seq<CashNote>): seq<int> {
    if ns == [] then [] else [ns[0].value] + NoteValues(ns[1..])
  }

  /** The submitted denominations: rows with a non-zero count, in table
      order, each with its count as an integer. */
  function Normalise(ds: seq<Denomination>): (r: seq<CashNote>)
    ensures NormalisedFrom(r, ds)
  {
    if ds == [] then []
    else
      var rest := Normalise(ds[1..]);
      NormaliseCons(ds, rest);
      if HasCount(ds[0]) then [ToNote(ds[0])] + rest else rest
  }

  /** `r` lists the rows of `ds` with a non-zero count, in table order and
      with positive counts, and adds up to the table's cash total. */
  predicate NormalisedFrom(r: seq<CashNote>, ds: seq<Denomination>) {
    && |r| <= |ds|
    && PositiveCounts(r)
    && KeepsCounted(r, ds)
    && OnlyCounted(r, ds)
    && NotesTotal(r) == CashTotal(ds)
    && IsSubsequence(NoteValues(r), Values(ds))
  }

  predicate PositiveCounts(r: seq<CashNote>) {
    forall i :: 0 <= i < |r| ==> r[i].count > 0
  }

  /** Every row with a count has its note in `r`. */
  predicate KeepsCounted(r: seq<CashNote>, ds: seq<Denomination>) {
    forall d :: d in ds && HasCount(d) ==> ToNote(d) in r
  }

  /** Every note in `r` comes from a row with a count. */
  predicate OnlyCounted(r: seq<CashNote>, ds: seq<Denomination>) {
    forall n :: n in r ==> exists d :: d in ds && HasCount(d) && ToNote(d) == n
  }

  /** Normalising the first row on top of the rest: a row with a count is
      kept in front, any other row is dropped. */
  lemma NormaliseCons(ds: seq<Denomination>, rest: seq<CashNote>)
    requires ds != [] && NormalisedFrom(rest, ds[1..])
    ensures HasCount(ds[0]) ==> NormalisedFrom([ToNote(ds[0])] + rest, ds)
    ensures !HasCount(ds[0]) ==> NormalisedFrom(rest, ds)
  {
    assert forall d :: d in ds[1..] ==> d in ds;
    assert Values(ds) == [ds[0].value] + Values(ds[1..]);
    SubsequenceExtend(NoteValues(rest), Values(ds[1..]), ds[0].value);
    if HasCount(ds[0]) {
      var r := [ToNote(ds[0])] + rest;
      KeepPositive(ds[0], rest);
      KeepCounted(ds, rest);
      KeepOnly(ds, rest);
      assert NotesTotal(r) == CashTotal(ds) by {
        assert r[1..] == rest;
      }
      assert IsSubsequence(NoteValues(r), Values(ds)) by {
        assert r[1..] == rest;
        assert NoteValues(r) == [ds[0].value] + NoteValues(rest);
        assert ([ds[0].value] + Values(ds[1..]))[1..] == Values(ds[1..]);
      }
    } else {
      assert Count(ds[0]) == 0;
    }
  }

  lemma KeepPositive(d: Denomination, rest: seq<CashNote>)
    requires HasCount(d) && PositiveCounts(rest)
    ensures PositiveCounts([ToNote(d)] + rest)
  {
    var r := [ToNote(d)] + rest;
    forall i | 0 <= i < |r|
      ensures r[i].count > 0
    {
      if i > 0 {
        assert r[i] == rest[i - 1];
      }
    }
  }

  lemma KeepCounted(ds: seq<Denomination>, rest: seq<CashNote>)
    requires ds != [] && KeepsCounted(rest, ds[1..])
    ensures KeepsCounted([ToNote(ds[0])] + rest, ds)
  {
    forall d | d in ds && HasCount(d)
      ensures ToNote(d) in [ToNote(ds[0])] + rest
    {
      if d != ds[0] {
        assert ds == [ds[0]] + ds[1..];
        assert d in ds[1..];
      }
    }
  }

  lemma KeepOnly(ds: seq<Denomination>, rest: seq<CashNote>)
    requires ds != [] && HasCount(ds[0]) && OnlyCounted(rest, ds[1..])
    ensures OnlyCounted([ToNote(ds[0])] + rest, ds)
  {
    var r := [ToNote(ds[0])] + rest;
    forall n | n in r
      ensures exists d :: d in ds && HasCount(d) && ToNote(d) == n
    {
      if n != r[0] {
        assert n in rest;
        var d :| d in ds[1..] && HasCount(d) && ToNote(d) == n;
        assert d in ds;
      } else {
        assert ds[0] in ds;
      }
    }
  }

  lemma SubsequenceExtend(a: seq<int>, b: seq<int>, x: int)
    requires IsSubsequence(a, b)
    ensures IsSubsequence(a, [x] + b)
  {
    assert ([x] + b)[1..] == b;
  }

  /** `customSubmit`: a cash payment whose notes do not add up to the
      expected total is rejected; otherwise the form is submitted, with the
      cheque details merged in for a cheque and the normalised notes for
      cash. */
  method CustomSubmit(data: PaymentData, ds: seq<Denomination>, cheque: ChequeDetails)
    returns (outcome: SubmitOutcome)
    ensures outcome.Rejected? <==> data.paymentMethod == CASH && CashTotal(ds) as real != ExpectedCashTotal(data)
    ensures outcome.Rejected? ==> outcome == Rejected(CashTotal(ds), ExpectedCashTotal(data))
    ensures outcome.Submitted? && data.paymentMethod == CHEQUE ==>
      outcome.data == data.(chequeNumber := Some(cheque.chequeNumber), bankName := Some(cheque.bankName))
    ensures outcome.Submitted? && data.paymentMethod == CASH ==>
      outcome.data == data.(denominations := Some(Normalise(ds)))
    ensures outcome.Submitted? && data.paymentMethod !in {CASH, CHEQUE} ==> outcome.data == data
  {
    var cashTotal := CashTotal(ds);
    var expected := ExpectedCashTotal(data);
    if data.paymentMethod == CASH && cashTotal as real != expected {
      return Rejected(cashTotal, expected);
    }
    var updatedData := data;
    if data.paymentMethod == CHEQUE {
      updatedData := updatedData.(chequeNumber := Some(cheque.chequeNumber), bankName := Some(cheque.bankName));
    }
    if data.paymentMethod == CASH {
      updatedData := updatedData.(denominations := Some(Normalise(ds)));
    }
    return Submitted(updatedData);
  }

  /** The notes of an accepted cash payment add up to the expected total. */
  lemma AcceptedCashAddsUp(data: PaymentData, ds: seq<Denomination>)
    requires data.paymentMethod == CASH && CashTotal(ds) as real == ExpectedCashTotal(data)
    ensures NotesTotal(Normalise(ds)) as real == ExpectedCashTotal(data)
    ensures forall i :: 0 <= i < |Normalise(ds)| ==> Normalise(ds)[i].count > 0
  {
  }

  // ---------------------------------------------------------------------
  // Serial inputs, four to a row

  /** A row of serial inputs: the index of its first serial and the serials
      it shows. */
  datatype SerialRow = SerialRow(start: nat, serials: seq<string>)

  function RowsSerials(rows: seq<SerialRow>): seq<string> {
    if rows == [] then [] else rows[0].serials + RowsSerials(rows[1..])
  }

  lemma {:induction false} RowsSerialsAppend(rows: seq<SerialRow>, row: SerialRow)
    ensures RowsSerials(rows + [row]) == RowsSerials(rows) + row.serials
  {
    if rows == [] {
      assert [row][1..] == [];
    } else {
      assert (rows + [row])[1..] == rows[1..] + [row];
      RowsSerialsAppend(rows[1..], row);
    }
  }

  /** Row `k` starts at serial `4 * k` and shows the (one to four) serials
      from there up to the next row. */
  predicate RowsMatch(serials: seq<string>, rows: seq<SerialRow>) {
    forall k :: 0 <= k < |rows| ==>
      && rows[k].start == 4 * k && 0 < |rows[k].serials| <= 4 && 4 * k < |serials|
      && rows[k].serials == serials[4 * k .. Min(4 * k + 4, |serials|)]
  }

  /** One more row of four keeps the rows matching. */
  lemma RowsStep(serials: seq<string>, rows: seq<SerialRow>, i: nat)
    requires |rows| * 4 == i < |serials|
    requires RowsMatch(serials, rows)
    ensures RowsMatch(serials, rows + [SerialRow(i, serials[i..Min(i + 4, |serials|)])])
  {
    var row := SerialRow(i, serials[i..Min(i + 4, |serials|)]);
    var rows' := rows + [row];
    forall k | 0 <= k < |rows'|
      ensures rows'[k].start == 4 * k && 0 < |rows'[k].serials| <= 4 && 4 * k < |serials|
      ensures rows'[k].serials == serials[4 * k .. Min(4 * k + 4, |serials|)]
    {
      if k < |rows| {
        assert rows'[k] == rows[k];
      } else {
        assert rows'[k] == row && 4 * k == i;
      }
    }
  }

  /** One more row extends the prefix of serials the rows cover. */
  lemma RowsCoverStep(serials: seq<string>, rows: seq<SerialRow>, i: nat, end: nat)
    requires i <= end <= |serials| && RowsSerials(rows) == serials[..i]
    ensures RowsSerials(rows + [SerialRow(i, serials[i..end])]) == serials[..end]
  {
    RowsSerialsAppend(rows, SerialRow(i, serials[i..end]));
    assert serials[..end] == serials[..i] + serials[i..end];
  }

  /** `render500SerialInputs`: `serials.slice(i, i + 4)` for i = 0, 4, 8, ...
      The input at position `idx` of the row starting at `i` shows and edits
      serial `i + idx`. */
  method SerialRows(serials: seq<string>) returns (rows: seq<SerialRow>)
    ensures |rows| == (|serials| + 3) / 4
    ensures forall k :: 0 <= k < |rows| ==> rows[k].start == 4 * k
    ensures forall k :: 0 <= k < |rows| ==> 0 < |rows[k].serials| <= 4
    ensures forall k :: 0 <= k < |rows| ==>
      4 * k < |serials| && rows[k].serials == serials[4 * k .. Min(4 * k + 4, |serials|)]
    ensures RowsSerials(rows) == serials
  {
    rows := [];
    var i := 0;
    while i < |serials|
      invariant 0 <= i <= |serials| + 3
      invariant i % 4 == 0 && |rows| * 4 == i
      invariant RowsMatch(serials, rows)
      invariant RowsSerials(rows) == serials[..Min(i, |serials|)]
      decreases |serials| - i
    {
      var end := Min(i + 4, |serials|);
      RowsStep(serials, rows, i);
      RowsCoverStep(serials, rows, i, end);
      rows := rows + [SerialRow(i, serials[i..end])];
      i := i + 4;
    }
    assert serials[..|serials|] == serials;
    assert |rows| == (|serials| + 3) / 4 by {
      var n, q := |serials|, |rows|;
      assert n <= 4 * q <= n + 3;
    }
  }
}
