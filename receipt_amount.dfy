/** The amount printed on a fee receipt (FeeReceipt.jsx): the total of a
    payment, and that total in words. */
module ReceiptAmount {
  import opened Common
  import opened Text
  import opened RecordPayment
  import opened FeeReceipt

  // ---------------------------------------------------------------------
  // The amount line: "Rupees ... [and ... Paise] Only"

  /** `Math.round`: halves round up. */
  function RoundHalfUp(x: real): int {
    (x + 0.5).Floor
  }

  /** The rupees and paise of an amount. */
  datatype Split = Split(rupees: int, paise: int)

  /** How `amountToWords` splits an amount, as written: the floor, and the
      fraction times 100 rounded. A fraction of .995 or more rounds to 100
      paise. */
  function AsWrittenSplit(amount: real): (s: Split)
    ensures s.rupees == amount.Floor
    ensures 0 <= s.paise <= 100
  {
    Split(amount.Floor, RoundHalfUp((amount - amount.Floor as real) * 100.0))
  }

  /** The split the words are meant to show: the amount rounded to whole
      paise, then divided into rupees and paise below 100. */
  function RoundedSplit(amount: real): (s: Split)
    ensures 0 <= s.paise < 100
    ensures s.rupees * 100 + s.paise == RoundHalfUp(amount * 100.0)
  {
    var cents := RoundHalfUp(amount * 100.0);
    Split(cents / 100, cents % 100)
  }

  /** The two splits agree except when the paise round up to 100, where the
      rounded split carries them into one more rupee. */
  lemma SplitsAgree(amount: real)
    ensures AsWrittenSplit(amount).paise < 100 ==> RoundedSplit(amount) == AsWrittenSplit(amount)
    ensures AsWrittenSplit(amount).paise == 100 ==> RoundedSplit(amount) == Split(amount.Floor + 1, 0)
  {
    var r := amount.Floor;
    var p := AsWrittenSplit(amount).paise;
    var y := (amount - r as real) * 100.0 + 0.5;
    assert amount * 100.0 + 0.5 == (r * 100) as real + y;
    assert p as real <= y < p as real + 1.0;
    var cents := RoundHalfUp(amount * 100.0);
    assert cents == r * 100 + p;
  }

  predicate SplitInRange(s: Split) {
    -WordsLimit < s.rupees < WordsLimit && 0 <= s.paise < WordsLimit
  }

  /** The words of the amount line. */
  function AmountWords(s: Split): seq<Word>
    requires SplitInRange(s)
  {
    [RupeesWord] + NumberWords(s.rupees)
    + (if s.paise > 0 then [AndWord] + (NumberWords(s.paise) + [PaiseWord]) else [])
    + [OnlyWord]
  }

  /** The text `amountToWords` builds from a split. */
  function AmountText(s: Split): string
    requires SplitInRange(s)
  {
    "Rupees " + NumberText(s.rupees)
    + (if s.paise > 0 then " and " + (NumberText(s.paise) + " Paise") else "")
    + " Only"
  }

  /** `amountToWords` as written: "Invalid Amount" for NaN (here `None`),
      otherwise the line for the floor-and-round split. */
  function AsWrittenAmountToWords(amount: Option<real>): string
    requires amount.Some? ==> SplitInRange(AsWrittenSplit(amount.value))
  {
    match amount
    case None => "Invalid Amount"
    case Some(a) => AmountText(AsWrittenSplit(a))
  }

  /** The receipt's amount in words, with the amount rounded to whole paise
      first. */
  function AmountToWords(amount: Option<real>): string
    requires amount.Some? ==> SplitInRange(RoundedSplit(amount.value))
  {
    match amount
    case None => "Invalid Amount"
    case Some(a) => AmountText(RoundedSplit(a))
  }

  /** The amount line is its words joined by single spaces. */
  lemma AmountTextIsWords(s: Split)
    requires SplitInRange(s)
    ensures AmountText(s) == Join(AmountWords(s))
  {
    RupeesHead(s.rupees);
    if s.paise > 0 {
      PaiseAmountText(s);
    } else {
      RupeesAmountText(s);
    }
  }

  /** "Rupees" and the words of the rupees, joined. */
  lemma RupeesHead(rupees: int)
    requires -WordsLimit < rupees < WordsLimit
    ensures NumberWords(rupees) != []
    ensures Join([RupeesWord] + NumberWords(rupees)) == "Rupees " + NumberText(rupees)
  {
    NumberWordsShape(rupees);
    JoinCons(RupeesWord, NumberWords(rupees));
  }

  lemma RupeesAmountText(s: Split)
    requires SplitInRange(s) && s.paise <= 0
    requires Join([RupeesWord] + NumberWords(s.rupees)) == "Rupees " + NumberText(s.rupees)
    requires NumberWords(s.rupees) != []
    ensures AmountText(s) == Join(AmountWords(s))
  {
    var head := [RupeesWord] + NumberWords(s.rupees);
    JoinAppend(head, [OnlyWord]);
    assert AmountWords(s) == head + [OnlyWord];
    OnlyTail(Join(head));
  }

  /** The line without a paise clause, regrouped word by word. */
  lemma OnlyTail(h: string)
    ensures h + "" + " Only" == h + " " + "Only"
  {
  }

  lemma PaiseAmountText(s: Split)
    requires SplitInRange(s) && s.paise > 0
    requires Join([RupeesWord] + NumberWords(s.rupees)) == "Rupees " + NumberText(s.rupees)
    ensures AmountText(s) == Join(AmountWords(s))
  {
    var head := [RupeesWord] + NumberWords(s.rupees);
    NumberWordsShape(s.paise);
    PaiseLineWords(head, NumberWords(s.paise));
    assert AmountWords(s) == head + ([AndWord] + (NumberWords(s.paise) + [PaiseWord])) + [OnlyWord];
  }

  /** Joining a line with a paise clause. */
  lemma PaiseLineWords(head: seq<Word>, pw: seq<Word>)
    requires head != [] && pw != []
    ensures Join(head + ([AndWord] + (pw + [PaiseWord])) + [OnlyWord])
         == Join(head) + (" and " + (Join(pw) + " Paise")) + " Only"
  {
    var mid := [AndWord] + (pw + [PaiseWord]);
    JoinCons(AndWord, pw + [PaiseWord]);
    JoinAppend(pw, [PaiseWord]);
    JoinAppend(head, mid);
    JoinAppend(head + mid, [OnlyWord]);
    PaiseLineText(Join(head), Join(pw));
  }

  lemma Assoc(a: string, b: string, c: string)
    ensures a + (b + c) == a + b + c
  {
  }

  /** The amount line with a paise clause, regrouped word by word. */
  lemma PaiseLineText(h: string, p: string)
    ensures h + (" and " + (p + " Paise")) + " Only" == h + " " + ("and" + " " + (p + " " + "Paise")) + " " + "Only"
  {
    var clause := " and " + (p + " Paise");
    assert "and" + " " + (p + " " + "Paise") == "and " + (p + " Paise");
    Assoc(h, " ", "and " + (p + " Paise"));
    assert " " + ("and " + (p + " Paise")) == clause;
    Assoc(h + clause, " ", "Only");
  }

  /** The amount line starts with "Rupees " and ends with " Only". */
  lemma AmountTextEnds(s: Split)
    requires SplitInRange(s)
    ensures "Rupees " <= AmountText(s)
    ensures |AmountText(s)| >= 5 && AmountText(s)[|AmountText(s)| - 5..] == " Only"
  {
    var t := AmountText(s);
    var front := "Rupees " + NumberText(s.rupees)
      + (if s.paise > 0 then " and " + (NumberText(s.paise) + " Paise") else "");
    assert t == front + " Only";
    assert t[|t| - 5..] == " Only";
  }

  /** The "and ... Paise" clause is there exactly when there are paise. */
  lemma PaiseClause(s: Split)
    requires SplitInRange(s)
    ensures PaiseWord in AmountWords(s) <==> s.paise > 0
    ensures AndWord in AmountWords(s) <==> s.paise > 0
  {
    NumberWordsShape(s.rupees);
    if s.paise > 0 {
      NumberWordsShape(s.paise);
    }
  }

  /** The words before and after a cut. */
  datatype Cut = Cut(before: seq<Word>, after: seq<Word>)

  /** Cuts `ws` at its first "and"; `None` when there is none. */
  function CutAtAnd(ws: seq<Word>): (r: Option<Cut>)
    ensures r.None? <==> AndWord !in ws
    ensures r.Some? ==> ws == r.value.before + [AndWord] + r.value.after && AndWord !in r.value.before
  {
    if ws == [] then None
    else if ws[0] == AndWord then Some(Cut([], ws[1..]))
    else
      match CutAtAnd(ws[1..])
      case None => None
      case Some(c) => Some(Cut([ws[0]] + c.before, c.after))
  }

  /** The rupee words and the paise words of an amount line. */
  datatype LineParts = LineParts(rupeeWords: seq<Word>, paiseWords: seq<Word>)

  /** Cuts an amount line into its parts: "Rupees" first and "Only" last,
      and what lies between them cut by `InnerParts`. */
  function AmountParts(ws: seq<Word>): Option<LineParts> {
    if |ws| < 2 || ws[0] != RupeesWord || ws[|ws| - 1] != OnlyWord then None
    else InnerParts(ws[1..|ws| - 1])
  }

  /** The words between "Rupees" and "Only": all rupee words when there is
      no "and"; otherwise the words before it, and the words between it and
      a final "Paise". */
  function InnerParts(inner: seq<Word>): Option<LineParts> {
    match CutAtAnd(inner)
    case None => Some(LineParts(inner, []))
    case Some(c) =>
      if c.after == [] || c.after[|c.after| - 1] != PaiseWord then None
      else Some(LineParts(c.before, c.after[..|c.after| - 1]))
  }

  lemma LineInner(a: seq<Word>, b: seq<Word>)
    ensures AmountParts([RupeesWord] + a + b + [OnlyWord]) == InnerParts(a + b)
  {
    var ws := [RupeesWord] + a + b + [OnlyWord];
    assert ws[1..|ws| - 1] == a + b;
  }

  /** Reads an amount line back into rupees and paise. */
  function ReadAmount(ws: seq<Word>): Option<Split> {
    match AmountParts(ws)
    case None => None
    case Some(parts) => Some(Split(WordsToNumber(parts.rupeeWords), WordsToNumber(parts.paiseWords)))
  }

  /** The first "and" after words holding none is the one that follows them. */
  lemma {:induction false} CutAfterWords(rw: seq<Word>, rest: seq<Word>)
    requires AndWord !in rw
    ensures CutAtAnd(rw + ([AndWord] + rest)) == Some(Cut(rw, rest))
  {
    if rw == [] {
      assert rw + ([AndWord] + rest) == [AndWord] + rest;
    } else {
      assert (rw + ([AndWord] + rest))[1..] == rw[1..] + ([AndWord] + rest);
      CutAfterWords(rw[1..], rest);
      assert [rw[0]] + rw[1..] == rw;
    }
  }

  /** Cutting a line without paise. */
  lemma RupeesLineParts(rw: seq<Word>)
    requires AndWord !in rw
    ensures AmountParts([RupeesWord] + rw + [OnlyWord]) == Some(LineParts(rw, []))
  {
    LineInner(rw, []);
    assert rw + [] == rw;
  }

  /** Cutting a line with paise. */
  lemma PaiseLineParts(rw: seq<Word>, pw: seq<Word>)
    requires AndWord !in rw
    ensures AmountParts([RupeesWord] + rw + ([AndWord] + (pw + [PaiseWord])) + [OnlyWord])
         == Some(LineParts(rw, pw))
  {
    LineInner(rw, [AndWord] + (pw + [PaiseWord]));
    CutAfterWords(rw, pw + [PaiseWord]);
    assert (pw + [PaiseWord])[..|pw|] == pw;
  }

  /** The words that carry the paise of a split: none when there are no
      paise. */
  function PaiseWords(s: Split): seq<Word>
    requires SplitInRange(s)
  {
    if s.paise > 0 then NumberWords(s.paise) else []
  }

  /** The amount line cuts into the words of its rupees and of its paise. */
  lemma AmountLineParts(s: Split)
    requires SplitInRange(s)
    ensures AmountParts(AmountWords(s)) == Some(LineParts(NumberWords(s.rupees), PaiseWords(s)))
  {
    NoAndInNumber(s.rupees);
    if s.paise > 0 {
      PaiseAmountParts(s);
    } else {
      RupeesAmountParts(s);
    }
  }

  lemma NoAndInNumber(n: int)
    requires -WordsLimit < n < WordsLimit
    ensures AndWord !in NumberWords(n)
  {
    NumberWordsShape(n);
  }

  lemma RupeesAmountParts(s: Split)
    requires SplitInRange(s) && s.paise <= 0 && AndWord !in NumberWords(s.rupees)
    ensures AmountParts(AmountWords(s)) == Some(LineParts(NumberWords(s.rupees), []))
  {
    RupeesLineParts(NumberWords(s.rupees));
    assert AmountWords(s) == [RupeesWord] + NumberWords(s.rupees) + [OnlyWord];
  }

  lemma PaiseAmountParts(s: Split)
    requires SplitInRange(s) && s.paise > 0 && AndWord !in NumberWords(s.rupees)
    ensures AmountParts(AmountWords(s)) == Some(LineParts(NumberWords(s.rupees), NumberWords(s.paise)))
  {
    PaiseLineParts(NumberWords(s.rupees), NumberWords(s.paise));
  }

  /** The amount line reads back as the split it was made from. */
  lemma AmountWordsRoundTrip(s: Split)
    requires SplitInRange(s)
    ensures ReadAmount(AmountWords(s)) == Some(s)
  {
    AmountLineParts(s);
    NumberWordsRoundTrip(s.rupees);
    if s.paise > 0 {
      NumberWordsRoundTrip(s.paise);
    } else {
      assert WordsToNumber(PaiseWords(s)) == 0;
    }
  }

  /** 12.999 as written: the fraction rounds to 100 paise, so the line says
      "Rupees Twelve and One Hundred Paise Only" where 13 rupees are meant. */
  lemma AsWrittenHundredPaise()
    ensures AsWrittenSplit(12.999) == Split(12, 100)
    ensures ReadAmount(AmountWords(AsWrittenSplit(12.999))) == Some(Split(12, 100))
    ensures RoundedSplit(12.999) == Split(13, 0)
  {
    assert (12.999).Floor == 12;
    assert ((12.999 - 12.0) * 100.0 + 0.5).Floor == 100;
    assert (12.999 * 100.0 + 0.5).Floor == 1300;
    AmountWordsRoundTrip(Split(12, 100));
  }

  /** The line as written prints 12.999 as twelve rupees and one hundred
      paise; the corrected line prints thirteen rupees. */
  lemma AsWrittenHundredPaiseText()
    ensures AsWrittenAmountToWords(Some(12.999)) == "Rupees Twelve and One Hundred Paise Only"
    ensures AmountToWords(Some(12.999)) == "Rupees Thirteen Only"
  {
    AsWrittenHundredPaise();
    SmallNumberText(12);
    SmallNumberText(13);
    OneHundredText();
    assert AsWrittenAmountToWords(Some(12.999)) == AmountText(Split(12, 100));
    assert AmountToWords(Some(12.999)) == AmountText(Split(13, 0));
    TeenEntries();
    HundredPaiseLine();
    ThirteenLine();
  }

  /** Two entries of the `ones` table. */
  lemma TeenEntries()
    ensures Ones[12] == "Twelve" && Ones[13] == "Thirteen"
  {
  }

  /** The line as written, spelled out. */
  lemma HundredPaiseLine()
    ensures "Rupees " + "Twelve" + (" and " + ("One Hundred" + " Paise")) + " Only"
         == "Rupees Twelve and One Hundred Paise Only"
  {
    var clause := " and " + ("One Hundred" + " Paise");
    assert clause == " and One Hundred Paise";
    var head := "Rupees " + "Twelve";
    assert head == "Rupees Twelve";
    Concat3(head, clause, " Only");
  }

  /** The corrected line, spelled out. */
  lemma ThirteenLine()
    ensures "Rupees " + "Thirteen" + "" + " Only" == "Rupees Thirteen Only"
  {
    assert "Rupees " + "Thirteen" == "Rupees Thirteen";
  }

  lemma Concat3(a: string, b: string, c: string)
    requires a == "Rupees Twelve" && b == " and One Hundred Paise" && c == " Only"
    ensures a + b + c == "Rupees Twelve and One Hundred Paise Only"
  {
  }

  lemma SmallNumberText(n: int)
    requires 0 < n < 20
    ensures NumberText(n) == Ones[n]
  {
    assert n % 100 == n;
    assert HundredsWords(n) == [OnesWord(n)];
  }

  lemma OneHundredText()
    ensures NumberText(100) == "One Hundred"
  {
    assert HundredsWords(100) == [OnesWord(1), HundredWord];
  }

  /** Wherever the paise as written stay below 100, the receipt as written
      and the corrected one print the same line. */
  lemma AsWrittenAgrees(amount: real)
    requires SplitInRange(AsWrittenSplit(amount)) && AsWrittenSplit(amount).paise < 100
    ensures SplitInRange(RoundedSplit(amount))
    ensures AsWrittenAmountToWords(Some(amount)) == AmountToWords(Some(amount))
  {
    SplitsAgree(amount);
  }

  /** What the receipt prints for an amount: "Invalid Amount" for NaN;
      otherwise the line of the amount rounded to whole paise, which reads
      back as that many rupees and fewer than 100 paise. */
  lemma AmountToWordsMeaning(amount: Option<real>)
    requires amount.Some? ==> SplitInRange(RoundedSplit(amount.value))
    ensures amount.None? ==> AmountToWords(amount) == "Invalid Amount"
    ensures amount.Some? ==>
      var s := RoundedSplit(amount.value);
      && AmountToWords(amount) == Join(AmountWords(s))
      && ReadAmount(AmountWords(s)) == Some(s)
      && s.paise < 100
      && s.rupees * 100 + s.paise == RoundHalfUp(amount.value * 100.0)
  {
    if amount.Some? {
      AmountTextIsWords(RoundedSplit(amount.value));
      AmountWordsRoundTrip(RoundedSplit(amount.value));
    }
  }

  // ---------------------------------------------------------------------
  // The receipt total

  /** `parseFloat(amount) + parseFloat(late_fee || 0) - parseFloat(discount || 0)`;
      NaN (`None`) when the amount has no digits. The amount strings the
      form holds are integers, for which `parseFloat` and `parseInt` agree. */
  function ReceiptTotal(p: PaymentData): Option<real> {
    match ParseInt(p.amount)
    case None => None
    case Some(a) => Some(a as real + p.lateFee - p.discount as real)
  }

  /** Whenever the amount holds a number, the receipt shows the total the
      payment dialog checked the cash against. */
  lemma ReceiptShowsExpectedTotal(p: PaymentData)
    requires ParseInt(p.amount).Some?
    ensures ReceiptTotal(p) == Some(ExpectedCashTotal(p))
  {
  }

  /** For an accepted cash payment the receipt's amount line reads back as
      the rupees the submitted notes add up to, with no paise. */
  lemma CashReceiptReadsNotesTotal(p: PaymentData, ds: seq<Denomination>)
    requires p.paymentMethod == CASH && CashTotal(ds) as real == ExpectedCashTotal(p)
    requires ParseInt(p.amount).Some?
    requires -WordsLimit < NotesTotal(Normalise(ds)) < WordsLimit
    ensures ReceiptTotal(p) == Some(NotesTotal(Normalise(ds)) as real)
    ensures RoundedSplit(ReceiptTotal(p).value) == Split(NotesTotal(Normalise(ds)), 0)
    ensures ReadAmount(AmountWords(RoundedSplit(ReceiptTotal(p).value)))
         == Some(Split(NotesTotal(Normalise(ds)), 0))
  {
    var n := NotesTotal(Normalise(ds));
    assert n == CashTotal(ds);
    ReceiptShowsExpectedTotal(p);
    WholeRupees(n);
    AmountWordsRoundTrip(Split(n, 0));
  }

  /** A whole number of rupees has no paise. */
  lemma WholeRupees(n: int)
    ensures RoundedSplit(n as real) == Split(n, 0)
  {
    assert (n as real * 100.0 + 0.5).Floor == n * 100;
  }
}
